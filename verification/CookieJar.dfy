/** The cookie inventory of a session. A digest names cookies; it may be any function. */
module CookieJars {
  import opened Octets
  import opened Outcomes
  import opened Budget

  datatype CookieState = Unused | InFlight | Spent

  type Id = seq<Octet>

  datatype Entry = Entry(id: Id, octets: seq<Octet>, state: CookieState)

  const CAPACITY: nat := 8
  const TARGET: nat := 8
  const BURST_RESERVE: nat := 1
  const LOW_WATERMARK: nat := 2

  // ----- the inventory as a list -----

  function CountState(e: seq<Entry>, s: CookieState): nat {
    if e == [] then 0 else CountState(e[..|e| - 1], s) + if e[|e| - 1].state == s then 1 else 0
  }

  /** The entries that are not spent. */
  function Live(e: seq<Entry>): seq<Entry> {
    if e == [] then [] else Live(e[..|e| - 1]) + if e[|e| - 1].state != Spent then [e[|e| - 1]] else []
  }

  function Fresh(digest: seq<Octet> -> Id, cookie: seq<Octet>): Entry {
    Entry(digest(cookie), cookie, Unused)
  }

  /** The inventory with room made, if there is none, by dropping spent entries. */
  function WithRoom(e: seq<Entry>): seq<Entry> {
    if |e| >= CAPACITY then Live(e) else e
  }

  /** Adds the valid cookies from the i-th on, until there is no room. */
  function Stocked(digest: seq<Octet> -> Id, e: seq<Entry>, cookies: seq<seq<Octet>>, i: nat): seq<Entry>
    requires i <= |cookies|
    decreases |cookies| - i
  {
    if i == |cookies| then e
    else if !ValidCookieSize(|cookies[i]|) then Stocked(digest, e, cookies, i + 1)
    else if |WithRoom(e)| >= CAPACITY then WithRoom(e)
    else Stocked(digest, WithRoom(e) + [Fresh(digest, cookies[i])], cookies, i + 1)
  }

  /** The first entry from `i` on with the state, or the length. */
  function FirstWith(e: seq<Entry>, s: CookieState, i: nat): (k: nat)
    requires i <= |e|
    ensures i <= k <= |e|
    ensures forall j :: i <= j < k ==> e[j].state != s
    ensures k < |e| ==> e[k].state == s
    decreases |e| - i
  {
    if i == |e| || e[i].state == s then i else FirstWith(e, s, i + 1)
  }

  /** The first entry from `i` on that is in flight under the name, or the length. */
  function FirstInFlight(e: seq<Entry>, id: Id, i: nat): (k: nat)
    requires i <= |e|
    ensures i <= k <= |e|
    ensures forall j :: i <= j < k ==> !(e[j].id == id && e[j].state == InFlight)
    ensures k < |e| ==> e[k].id == id && e[k].state == InFlight
    decreases |e| - i
  {
    if i == |e| || (e[i].id == id && e[i].state == InFlight) then i else FirstInFlight(e, id, i + 1)
  }

  function WithState(e: seq<Entry>, k: nat, s: CookieState): seq<Entry>
    requires k < |e|
  {
    e[k := e[k].(state := s)]
  }

  /** The inventory after the response to the request with cookie `id`. */
  function SpentIn(e: seq<Entry>, id: Id): seq<Entry> {
    var k := FirstInFlight(e, id, 0);
    if k < |e| then WithState(e, k, Spent) else e
  }

  /** How many placeholders to ask for. */
  function Placeholders(e: seq<Entry>): nat {
    var projected := CountState(e, Unused) + CountState(e, InFlight);
    if projected > TARGET then 0 else Min(TARGET - projected, MAX_PLACEHOLDERS)
  }

  // ----- laws of the inventory -----

  lemma {:induction false} CountConcat(a: seq<Entry>, b: seq<Entry>, s: CookieState)
    ensures CountState(a + b, s) == CountState(a, s) + CountState(b, s)
  {
    if b == [] {
      assert a + b == a;
    } else {
      assert (a + b)[..|a + b| - 1] == a + b[..|b| - 1];
      CountConcat(a, b[..|b| - 1], s);
    }
  }

  lemma {:induction false} LiveConcat(a: seq<Entry>, b: seq<Entry>)
    ensures Live(a + b) == Live(a) + Live(b)
  {
    if b == [] {
      assert a + b == a;
    } else {
      assert (a + b)[..|a + b| - 1] == a + b[..|b| - 1];
      LiveConcat(a, b[..|b| - 1]);
    }
  }

  lemma CountOne(x: Entry, s: CookieState)
    ensures CountState([x], s) == if x.state == s then 1 else 0
    ensures Live([x]) == if x.state != Spent then [x] else []
  {
    assert [x][..0] == [];
  }

  /** Changing the state of one entry moves one from one count to the other. */
  lemma CountAfterChange(e: seq<Entry>, k: nat, t: CookieState, s: CookieState)
    requires k < |e|
    ensures CountState(WithState(e, k, t), s) + (if e[k].state == s then 1 else 0)
            == CountState(e, s) + (if t == s then 1 else 0)
  {
    var f := WithState(e, k, t);
    assert e == e[..k] + [e[k]] + e[k + 1..] && f == e[..k] + [f[k]] + e[k + 1..];
    CountConcat(e[..k] + [e[k]], e[k + 1..], s);
    CountConcat(e[..k], [e[k]], s);
    CountConcat(e[..k] + [f[k]], e[k + 1..], s);
    CountConcat(e[..k], [f[k]], s);
    CountOne(e[k], s);
    CountOne(f[k], s);
  }

  lemma LiveCounts(e: seq<Entry>)
    ensures |Live(e)| == CountState(e, Unused) + CountState(e, InFlight) <= |e|
    ensures CountState(Live(e), InFlight) == CountState(e, InFlight)
  {
    LiveLength(e);
    LiveInFlight(e);
  }

  lemma {:induction false} LiveLength(e: seq<Entry>)
    ensures |Live(e)| == CountState(e, Unused) + CountState(e, InFlight) <= |e|
  {
    if e != [] {
      LiveLength(e[..|e| - 1]);
    }
  }

  lemma {:induction false} LiveInFlight(e: seq<Entry>)
    ensures CountState(Live(e), InFlight) == CountState(e, InFlight)
  {
    if e != [] {
      var front, last := e[..|e| - 1], e[|e| - 1];
      LiveInFlight(front);
      LiveStep(front, last);
      assert front + [last] == e;
      CountConcat(Live(front), if last.state != Spent then [last] else [], InFlight);
      CountOne(last, InFlight);
    }
  }

  lemma LiveStep(front: seq<Entry>, last: Entry)
    ensures Live(front + [last]) == Live(front) + if last.state != Spent then [last] else []
  {
    LiveConcat(front, [last]);
    CountOne(last, InFlight);
  }

  /** Within capacity, every cookie of a size that fits a request, and the counter right. */
  ghost predicate Sound(e: seq<Entry>, inFlight: int) {
    |e| <= CAPACITY && AllFit(e) && inFlight == CountState(e, InFlight)
  }

  ghost predicate AllFit(e: seq<Entry>) {
    forall x {:trigger Fits(x)} :: x in e ==> Fits(x)
  }

  predicate Fits(x: Entry) {
    ValidCookieSize(|x.octets|)
  }

  lemma {:induction false} LiveIsPart(e: seq<Entry>)
    ensures forall x :: x in Live(e) ==> x in e
  {
    if e != [] {
      LiveIsPart(e[..|e| - 1]);
    }
  }

  lemma LiveIsSound(e: seq<Entry>, inFlight: int)
    requires Sound(e, inFlight)
    ensures Sound(Live(e), inFlight)
  {
    LiveCounts(e);
    LiveIsPart(e);
  }

  lemma ChangedIsSound(e: seq<Entry>, inFlight: int, k: nat, s: CookieState)
    requires Sound(e, inFlight) && k < |e|
    ensures Sound(WithState(e, k, s),
                  inFlight + (if s == InFlight then 1 else 0) - if e[k].state == InFlight then 1 else 0)
  {
    CountAfterChange(e, k, s, InFlight);
    var f := WithState(e, k, s);
    forall x | x in f
      ensures Fits(x)
    {
      if x == f[k] {
        assert Fits(e[k]);
      } else {
        assert x in e;
      }
    }
  }

  lemma GrownIsSound(e: seq<Entry>, inFlight: int, x: Entry)
    requires Sound(e, inFlight) && |e| < CAPACITY && Fits(x) && x.state == Unused
    ensures Sound(e + [x], inFlight)
  {
    CountConcat(e, [x], InFlight);
    CountOne(x, InFlight);
  }

  lemma {:induction false} LiveTwice(e: seq<Entry>)
    ensures Live(Live(e)) == Live(e)
  {
    if e != [] {
      var front, last := e[..|e| - 1], e[|e| - 1];
      var part := if last.state != Spent then [last] else [];
      LiveTwice(front);
      LiveStep(front, last);
      assert front + [last] == e;
      LiveConcat(Live(front), part);
      CountOne(last, InFlight);
    }
  }

  /** Making room loses no entry that is not spent. */
  lemma RoomKeepsLive(e: seq<Entry>)
    ensures Live(WithRoom(e)) == Live(e) && |WithRoom(e)| <= |e|
    ensures CountState(WithRoom(e), InFlight) == CountState(e, InFlight)
  {
    LiveTwice(e);
    LiveCounts(e);
  }

  /** Stocking never goes over the capacity, and neither loses an unspent entry nor puts one in flight. */
  lemma {:induction false} StockingIsSafe(digest: seq<Octet> -> Id, e: seq<Entry>, cookies: seq<seq<Octet>>, i: nat)
    requires |e| <= CAPACITY && i <= |cookies|
    ensures |Stocked(digest, e, cookies, i)| <= 8
    ensures Live(e) <= Live(Stocked(digest, e, cookies, i))
    ensures CountState(Stocked(digest, e, cookies, i), InFlight) == CountState(e, InFlight)
    decreases |cookies| - i
  {
    RoomKeepsLive(e);
    if i < |cookies| {
      if !ValidCookieSize(|cookies[i]|) {
        StockingIsSafe(digest, e, cookies, i + 1);
      } else if |WithRoom(e)| < CAPACITY {
        var x := Fresh(digest, cookies[i]);
        StockingIsSafe(digest, WithRoom(e) + [x], cookies, i + 1);
        LiveConcat(WithRoom(e), [x]);
        CountConcat(WithRoom(e), [x], InFlight);
        CountOne(x, InFlight);
      }
    }
  }

  function AllFresh(digest: seq<Octet> -> Id, cookies: seq<seq<Octet>>, i: nat): (f: seq<Entry>)
    requires i <= |cookies|
    ensures |f| == |cookies| - i && forall j :: 0 <= j < |f| ==> f[j] == Fresh(digest, cookies[i + j])
  {
    seq(|cookies| - i, j requires 0 <= j < |cookies| - i => Fresh(digest, cookies[i + j]))
  }

  /** Valid cookies are all retained when they fit beside the unspent entries. */
  lemma {:induction false} StockingRetains(digest: seq<Octet> -> Id, e: seq<Entry>, cookies: seq<seq<Octet>>, i: nat)
    requires |e| <= CAPACITY && i <= |cookies|
    requires forall j :: i <= j < |cookies| ==> ValidCookieSize(|cookies[j]|)
    requires |Live(e)| + (|cookies| - i) <= CAPACITY
    ensures Live(Stocked(digest, e, cookies, i)) == Live(e) + AllFresh(digest, cookies, i)
    decreases |cookies| - i
  {
    if i == |cookies| {
      assert Live(e) + AllFresh(digest, cookies, i) == Live(e);
    } else {
      var x := Fresh(digest, cookies[i]);
      OneRetained(e, x);
      StockingRetains(digest, WithRoom(e) + [x], cookies, i + 1);
      FreshSplit(digest, Live(e), cookies, i);
    }
  }

  lemma OneRetained(e: seq<Entry>, x: Entry)
    requires |e| <= CAPACITY && |Live(e)| < CAPACITY && x.state != Spent
    ensures |WithRoom(e)| < CAPACITY && Live(WithRoom(e) + [x]) == Live(e) + [x]
  {
    RoomKeepsLive(e);
    LiveStep(WithRoom(e), x);
  }

  lemma FreshSplit(digest: seq<Octet> -> Id, e: seq<Entry>, cookies: seq<seq<Octet>>, i: nat)
    requires i < |cookies|
    ensures (e + [Fresh(digest, cookies[i])]) + AllFresh(digest, cookies, i + 1) == e + AllFresh(digest, cookies, i)
  {
  }

  /** The cookies a response brings for the placeholders asked for, and for the cookie it spends, are all
      retained, and no unspent entry is lost for them. */
  lemma ReplacementsAreRetained(digest: seq<Octet> -> Id, e: seq<Entry>, id: Id, cookies: seq<seq<Octet>>)
    requires |e| <= CAPACITY && FirstInFlight(e, id, 0) < |e|
    requires |cookies| <= Placeholders(e) + 1
    requires forall j :: 0 <= j < |cookies| ==> ValidCookieSize(|cookies[j]|)
    ensures Live(Stocked(digest, SpentIn(e, id), cookies, 0)) == Live(SpentIn(e, id)) + AllFresh(digest, cookies, 0)
    ensures |Live(SpentIn(e, id))| == |Live(e)| - 1
  {
    var k := FirstInFlight(e, id, 0);
    var f := SpentIn(e, id);
    LiveCounts(e);
    LiveCounts(f);
    CountAfterChange(e, k, Spent, Unused);
    CountAfterChange(e, k, Spent, InFlight);
    StockingRetains(digest, f, cookies, 0);
  }

  /** No more could be asked for: with one cookie more than the placeholders and the one for the spent cookie
      bring, the jar would not retain them all. */
  lemma PlaceholdersAreMost(digest: seq<Octet> -> Id, e: seq<Entry>, id: Id, cookies: seq<seq<Octet>>)
    requires |e| <= CAPACITY && FirstInFlight(e, id, 0) < |e|
    requires |cookies| > Placeholders(e) + 1
    ensures 0 <= Placeholders(e) <= 7
    ensures |Live(Stocked(digest, SpentIn(e, id), cookies, 0))| < |Live(SpentIn(e, id))| + |cookies|
  {
    var k := FirstInFlight(e, id, 0);
    var f := SpentIn(e, id);
    LiveCounts(e);
    LiveCounts(f);
    CountAfterChange(e, k, Spent, Unused);
    CountAfterChange(e, k, Spent, InFlight);
    CountsOne(e, k);
    StockingIsSafe(digest, f, cookies, 0);
    LiveCounts(Stocked(digest, f, cookies, 0));
  }

  lemma CountsOne(e: seq<Entry>, k: nat)
    requires k < |e| && e[k].state == InFlight
    ensures CountState(e, InFlight) >= 1
  {
    assert e == e[..k] + [e[k]] + e[k + 1..];
    CountConcat(e[..k] + [e[k]], e[k + 1..], InFlight);
    CountConcat(e[..k], [e[k]], InFlight);
    CountOne(e[k], InFlight);
  }

  // ----- the jar -----

  /** One cookie, owned by the jar and by the request it was handed to. */
  class ManagedCookie {
    const id: Id
    const octets: seq<Octet>
    var state: CookieState

    constructor (id: Id, octets: seq<Octet>)
      ensures this.id == id && this.octets == octets && state == Unused
    {
      this.id, this.octets, state := id, octets, Unused;
    }

    function View(): Entry
      reads this
    {
      Entry(id, octets, state)
    }
  }

  /** The entries are what the cookies hold. */
  ghost predicate Matches(c: seq<ManagedCookie>, e: seq<Entry>)
    reads c
  {
    |c| == |e| && forall i :: 0 <= i < |c| ==> c[i].View() == e[i]
  }

  ghost predicate NoneUnused(c: set<ManagedCookie>)
    reads c
  {
    forall x :: x in c ==> x.state != Unused
  }

  predicate Distinct(c: seq<ManagedCookie>) {
    forall i, j :: 0 <= i < j < |c| ==> c[i] != c[j]
  }

  lemma Prefix(e: seq<Entry>, i: nat)
    requires i < |e|
    ensures e[..i + 1] == e[..i] + [e[i]] && e[..i + 1][..i] == e[..i]
  {
  }

  /** The cookies that are not spent. */
  method Active(c: seq<ManagedCookie>, ghost e: seq<Entry>) returns (active: seq<ManagedCookie>)
    requires Distinct(c) && Matches(c, e)
    ensures Matches(active, Live(e)) && Distinct(active)
    ensures forall x :: x in active ==> x in c
  {
    active := [];
    for i := 0 to |c|
      invariant Matches(active, Live(e[..i])) && Distinct(active)
      invariant forall x :: x in active ==> x in c[..i]
    {
      Prefix(e, i);
      assert c[i].View() == e[i];
      if c[i].state != Spent {
        assert c[i] !in c[..i];
        active := active + [c[i]];
      } else {
        assert Live(e[..i]) + [] == Live(e[..i]);
      }
    }
    assert e[..|e|] == e;
  }

  /** How many cookies are unused, and where the first one is. */
  method FindUnused(c: seq<ManagedCookie>, ghost e: seq<Entry>) returns (unused: nat, first: nat)
    requires Matches(c, e)
    ensures unused == CountState(e, Unused) && first == FirstWith(e, Unused, 0)
    ensures unused == 0 <==> first == |c|
  {
    unused, first := 0, |c|;
    for i := 0 to |c|
      invariant unused == CountState(e[..i], Unused)
      invariant unused == 0 <==> first == |c|
      invariant first == |c| || first < i
      invariant FirstWith(e, Unused, 0) == if first < i then first else FirstWith(e, Unused, i)
    {
      Prefix(e, i);
      assert c[i].View() == e[i];
      if c[i].state == Unused {
        unused := unused + 1;
        if first == |c| {
          first := i;
        }
      }
    }
    assert e[..|e|] == e;
  }

  method CountStates(c: seq<ManagedCookie>, ghost e: seq<Entry>) returns (unused: nat, inFlight: nat, spent: nat)
    requires Matches(c, e)
    ensures unused == CountState(e, Unused) && inFlight == CountState(e, InFlight) && spent == CountState(e, Spent)
    ensures unused + inFlight + spent == |c|
  {
    unused, inFlight, spent := 0, 0, 0;
    for i := 0 to |c|
      invariant unused == CountState(e[..i], Unused) && inFlight == CountState(e[..i], InFlight)
      invariant spent == CountState(e[..i], Spent) && unused + inFlight + spent == i
    {
      Prefix(e, i);
      assert c[i].View() == e[i];
      match c[i].state {
        case Unused => unused := unused + 1;
        case InFlight => inFlight := inFlight + 1;
        case Spent => spent := spent + 1;
      }
    }
    assert e[..|e|] == e;
  }

  class CookieJar {
    const digest: seq<Octet> -> Id
    var cookies: seq<ManagedCookie>
    var spentCount: int
    var inFlightCount: int
    /** What the cookies hold. */
    ghost var entries: seq<Entry>
    /** Every cookie that was ever handed out. */
    ghost var handedOut: set<ManagedCookie>

    ghost predicate Valid()
      reads this, cookies, handedOut
    {
      && Matches(cookies, entries) && Distinct(cookies)
      && NoneUnused(handedOut)
      && Sound(entries, inFlightCount)
    }

    constructor (digest: seq<Octet> -> Id)
      ensures Valid() && entries == [] && handedOut == {} && this.digest == digest && spentCount == 0
    {
      this.digest := digest;
      cookies, spentCount, inFlightCount, entries, handedOut := [], 0, 0, [], {};
    }

    /** Drops the spent cookies. */
    method EvictSpent()
      requires Valid()
      modifies `cookies, `entries
      ensures Valid() && entries == Live(old(entries))
      ensures forall c :: c in cookies ==> c in old(cookies)
    {
      LiveIsSound(entries, inFlightCount);
      cookies := Active(cookies, entries);
      entries := Live(entries);
    }

    /** Drops the spent cookies when the jar is full. */
    method MakeRoom()
      requires Valid()
      modifies `cookies, `entries
      ensures Valid() && entries == WithRoom(old(entries))
      ensures |Live(entries)| == |Live(old(entries))|
      ensures forall c :: c in cookies ==> c in old(cookies)
    {
      RoomKeepsLive(entries);
      if |cookies| >= CAPACITY {
        EvictSpent();
      }
    }

    /** Adds cookies up to the capacity; those of invalid size are passed over. The result is how many
        cookies came in. */
    method AddCookies(newCookies: seq<seq<Octet>>) returns (added: nat)
      requires Valid()
      modifies `cookies, `entries
      ensures Valid() && entries == Stocked(digest, old(entries), newCookies, 0)
      ensures |Live(entries)| == |Live(old(entries))| + added
      ensures forall c :: c in cookies ==> c in old(cookies) || fresh(c)
    {
      added := 0;
      var i := 0;
      while i < |newCookies|
        invariant i <= |newCookies| && Valid()
        invariant Stocked(digest, old(entries), newCookies, 0) == Stocked(digest, entries, newCookies, i)
        invariant |Live(entries)| == |Live(old(entries))| + added
        invariant forall c :: c in cookies ==> c in old(cookies) || fresh(c)
      {
        var raw := newCookies[i];
        if ValidCookieSize(|raw|) {
          MakeRoom();
          if |cookies| >= CAPACITY {
            return;
          }
          AddOne(raw);
          added := added + 1;
        }
        i := i + 1;
      }
    }

    method AddOne(raw: seq<Octet>)
      requires Valid() && ValidCookieSize(|raw|) && |cookies| < CAPACITY
      modifies `cookies, `entries
      ensures Valid() && entries == old(entries) + [Fresh(digest, raw)]
      ensures |Live(entries)| == |Live(old(entries))| + 1
      ensures forall c :: c in cookies ==> c in old(cookies) || fresh(c)
    {
      LiveStep(entries, Fresh(digest, raw));
      var c := new ManagedCookie(digest(raw), raw);
      GrownIsSound(entries, inFlightCount, Fresh(digest, raw));
      assert c !in cookies;
      cookies := cookies + [c];
      entries := entries + [Fresh(digest, raw)];
    }

    /** How many cookies are unused, in flight and spent. */
    method Counts() returns (unused: nat, inFlight: nat, spent: nat)
      requires Valid()
      ensures unused == CountState(entries, Unused)
      ensures inFlight == CountState(entries, InFlight) == inFlightCount
      ensures spent == CountState(entries, Spent)
      ensures unused + inFlight + spent == |entries| <= 8
    {
      unused, inFlight, spent := CountStates(cookies, entries);
    }

    method NeedsReplenishment() returns (needs: bool)
      requires Valid()
      ensures needs <==> CountState(entries, Unused) <= 2
    {
      var unused, _, _ := Counts();
      needs := unused <= LOW_WATERMARK;
    }

    /** Moves one cookie to another state and keeps the count of those in flight. */
    method SetState(k: nat, s: CookieState)
      requires Valid() && k < |cookies| && s != Unused
      modifies this`inFlightCount, this`entries, cookies
      ensures Valid() && cookies == old(cookies) && entries == WithState(old(entries), k, s)
      ensures cookies[k].state == s
    {
      var was := cookies[k].state;
      assert cookies[k].View() == entries[k];
      ChangedIsSound(entries, inFlightCount, k, s);
      cookies[k].state := s;
      entries := WithState(entries, k, s);
      inFlightCount := inFlightCount + (if s == InFlight then 1 else 0) - (if was == InFlight then 1 else 0);
    }

    /** Hands out the first unused cookie, once. */
    method AcquireForRequest(isBurst: bool) returns (selected: Option<ManagedCookie>)
      requires Valid()
      modifies this`inFlightCount, this`handedOut, this`entries, cookies
      ensures Valid() && cookies == old(cookies)
      ensures selected.Some? <==> CountState(old(entries), Unused) > if isBurst then 1 else 0
      ensures selected.None? ==> entries == old(entries) && handedOut == old(handedOut)
      ensures selected.Some? ==>
                var k := FirstWith(old(entries), Unused, 0);
                && k < |cookies| && selected.value == cookies[k] && entries == WithState(old(entries), k, InFlight)
                && selected.value !in old(handedOut) && handedOut == old(handedOut) + {selected.value}
    {
      var unused, first := FindUnused(cookies, entries);
      if unused == 0 || (isBurst && unused <= BURST_RESERVE) {
        return None;
      }
      assert cookies[first].View() == entries[first];
      SetState(first, InFlight);
      handedOut := handedOut + {cookies[first]};
      return Some(cookies[first]);
    }

    /** Spends the cookie of a finished request. */
    method MarkSpent(id: Id)
      requires Valid()
      modifies this`inFlightCount, this`spentCount, this`entries, cookies
      ensures Valid() && cookies == old(cookies) && handedOut == old(handedOut)
      ensures entries == SpentIn(old(entries), id)
      ensures spentCount == old(spentCount) + if FirstInFlight(old(entries), id, 0) < |old(entries)| then 1 else 0
    {
      var found := Find(id);
      if found < |cookies| {
        SetState(found, Spent);
        spentCount := spentCount + 1;
      }
    }

    /** The first cookie in flight under the name. */
    method Find(id: Id) returns (k: nat)
      requires Valid()
      ensures k == FirstInFlight(entries, id, 0)
    {
      for i := 0 to |cookies|
        invariant FirstInFlight(entries, id, 0) == FirstInFlight(entries, id, i)
      {
        assert cookies[i].View() == entries[i];
        if cookies[i].id == id && cookies[i].state == InFlight {
          return i;
        }
      }
      return |cookies|;
    }

    method CalculatePlaceholderCount() returns (n: int)
      requires Valid()
      ensures n == Placeholders(entries)
    {
      var unused, inFlight, _ := Counts();
      var projected := unused + inFlight;
      var needed := TARGET - projected;
      if needed < 0 {
        return 0;
      }
      n := Min(needed, MAX_PLACEHOLDERS);
    }
  }
}
