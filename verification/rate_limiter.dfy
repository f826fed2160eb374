/**
 The request limiter: one Redis counter per identifier and aligned 60-second window, which expires
 61 seconds after it is first counted. Time is in seconds and Redis is reachable throughout.
 */
module RateLimiter {
  import opened Common
  import Text
  import CursorCodec

  const WINDOW: int := 60

  // ---------- who is asking ----------

  datatype Identifier = Guest(ip: string) | User(token: string)

  predicate HasBearer(auth: string) {
    "Bearer " <= auth && |auth| > 7
  }

  /** _resolve_role and _resolve_identifier: an absent Authorization header reads as "". */
  function Identify(auth: string, forwarded: Option<string>, client: Option<string>): Identifier {
    if HasBearer(auth) then User(auth[7..][..Min(32, |auth| - 7)])
    else if forwarded.Some? && forwarded.value != "" then Guest(Text.Strip(Text.Split(forwarded.value, ',')[0]))
    else if client.Some? then Guest(client.value)
    else Guest("unknown")
  }

  datatype Limits = Limits(guest: nat, user: nat)

  function LimitOf(limits: Limits, id: Identifier): nat {
    if id.User? then limits.user else limits.guest
  }

  /** Two bearers share one budget exactly when their tokens agree on the first 32 characters. */
  lemma BearersShareExactly(t: string, u: string, f: Option<string>, c: Option<string>, g: Option<string>, d: Option<string>)
    requires t != "" && u != ""
    ensures Identify("Bearer " + t, f, c) == Identify("Bearer " + u, g, d) <==>
            t[..Min(32, |t|)] == u[..Min(32, |u|)]
  {
  }

  /** A JWT header segment of 32 characters or more fills the prefix, so tokens with that header share one budget. */
  lemma TokensWithOneHeaderShare(header: string, t: string, u: string, f: Option<string>, c: Option<string>)
    requires |header| >= 32
    ensures Identify("Bearer " + header + "." + t, f, c) == Identify("Bearer " + header + "." + u, f, c)
  {
  }

  /** The header of every token that this service signs (section 4.1 of RFC 7515, with the algorithm of its settings). */
  const JWT_HEADER: string := "{\"alg\":\"HS256\",\"typ\":\"JWT\"}"

  /** Encoded it is 36 characters without padding, so all users of the service share one budget. */
  lemma AllUsersShareOneBudget(t: string, u: string, f: Option<string>, c: Option<string>)
    ensures var header := CursorCodec.Encode64(CursorCodec.EncodeUtf8(JWT_HEADER));
            && |header| == 36 && '=' !in header
            && Identify("Bearer " + header + "." + t, f, c) == Identify("Bearer " + header + "." + u, f, c)
  {
    EncodedHeader(JWT_HEADER);
    TokensWithOneHeaderShare(CursorCodec.Encode64(CursorCodec.EncodeUtf8(JWT_HEADER)), t, u, f, c);
  }

  lemma EncodedHeader(json: string)
    requires |json| == 27 && forall c | c in json :: c as int < 0x80
    ensures var header := CursorCodec.Encode64(CursorCodec.EncodeUtf8(json)); |header| == 36 && '=' !in header
  {
    var bytes := CursorCodec.EncodeUtf8(json);
    CursorCodec.AsciiLength(json);
    CursorCodec.EncodedLength(bytes);
    assert |bytes| == 27;
  }

  /** Behind proxies a guest is known by the first address alone: the hops after it do not matter. */
  lemma FirstHopIdentifies(auth: string, ip: string, hops: string, client: Option<string>, other: Option<string>)
    requires !HasBearer(auth) && ip != "" && ',' !in ip
    ensures Identify(auth, Some(ip + [','] + hops), client) == Identify(auth, Some(ip), other) == Guest(Text.Strip(ip))
  {
    Text.SplitAtFirst(ip, hops, ',');
    Text.SplitOfWhole(ip, ',');
  }

  /** Without a proxy it is the client's address, and one name for all clients without one. */
  lemma ClientIdentifies(auth: string, client: Option<string>)
    requires !HasBearer(auth)
    ensures Identify(auth, None, client) == Identify(auth, Some(""), client)
    ensures Identify(auth, None, client) == if client.Some? then Guest(client.value) else Guest("unknown")
  {
  }

  /** Whoever names a bearer token is held to the users' limit, and anyone else to the guests'. */
  lemma BearersHaveTheUsersLimit(limits: Limits, t: string, auth: string, f: Option<string>, c: Option<string>)
    ensures t != "" ==> LimitOf(limits, Identify("Bearer " + t, f, c)) == limits.user
    ensures !("Bearer " <= auth) || auth == "Bearer " ==> LimitOf(limits, Identify(auth, f, c)) == limits.guest
  {
    if t != "" { assert HasBearer("Bearer " + t); }
  }

  // ---------- one request ----------

  /** A Redis counter; INCR creates it without expiry, EXPIRE gives it one. */
  datatype Counter = Counter(count: nat, expires: Option<real>)

  type Key = (Identifier, int)

  type Counters = map<Key, Counter>

  function WindowOf(now: real): int {
    now.Floor / WINDOW
  }

  predicate IsLive(c: Counter, now: real) {
    c.expires.None? || now < c.expires.value
  }

  function Incr(counters: Counters, key: Key, now: real): Counter {
    if key in counters && IsLive(counters[key], now) then counters[key].(count := counters[key].count + 1)
    else Counter(1, None)
  }

  function CountRequest(counters: Counters, id: Identifier, now: real): Counters {
    var key := (id, WindowOf(now));
    var c := Incr(counters, key, now);
    counters[key := if c.count == 1 then c.(expires := Some(now + (WINDOW + 1) as real)) else c]
  }

  datatype Decision = Decision(allowed: bool, remaining: nat, resetAt: int)

  function Decide(counters: Counters, id: Identifier, limit: nat, now: real): Decision {
    var current := Incr(counters, (id, WindowOf(now)), now).count;
    Decision(current <= limit, Max(0, limit - current), (WindowOf(now) + 1) * WINDOW)
  }

  // ---------- runs of requests ----------

  datatype Request = Request(id: Identifier, at: real)

  predicate Ordered(reqs: seq<Request>) {
    forall i, j | 0 <= i < j < |reqs| :: reqs[i].at <= reqs[j].at
  }

  function CountersAfter(reqs: seq<Request>): Counters {
    if reqs == [] then map[] else
      var n := |reqs| - 1;
      CountRequest(CountersAfter(reqs[..n]), reqs[n].id, reqs[n].at)
  }

  predicate LastIsAllowed(reqs: seq<Request>, limits: Limits)
    requires reqs != []
  {
    var n := |reqs| - 1;
    Decide(CountersAfter(reqs[..n]), reqs[n].id, LimitOf(limits, reqs[n].id), reqs[n].at).allowed
  }

  /** How many requests of an identifier fall into a window. */
  function Arrivals(reqs: seq<Request>, id: Identifier, w: int): nat {
    if reqs == [] then 0 else
      var r := reqs[|reqs| - 1];
      Arrivals(reqs[..|reqs| - 1], id, w) + if r.id == id && WindowOf(r.at) == w then 1 else 0
  }

  /** How many of them were let through. */
  function Allowed(reqs: seq<Request>, limits: Limits, id: Identifier, w: int): nat {
    if reqs == [] then 0 else
      var r := reqs[|reqs| - 1];
      Allowed(reqs[..|reqs| - 1], limits, id, w) +
      if r.id == id && WindowOf(r.at) == w && LastIsAllowed(reqs, limits) then 1 else 0
  }

  /** How many were let through in the 60 seconds from `start` on, wherever the windows lie. */
  function AllowedFrom(reqs: seq<Request>, limits: Limits, id: Identifier, start: real): nat {
    if reqs == [] then 0 else
      var r := reqs[|reqs| - 1];
      AllowedFrom(reqs[..|reqs| - 1], limits, id, start) +
      if r.id == id && start <= r.at < start + WINDOW as real && LastIsAllowed(reqs, limits) then 1 else 0
  }

  /** A counter stands for the arrivals of its window and cannot expire before the window does. */
  predicate CounterIsExact(counters: Counters, reqs: seq<Request>, id: Identifier, w: int) {
    var n := Arrivals(reqs, id, w);
    if n == 0 then (id, w) !in counters
    else
      && (id, w) in counters && counters[(id, w)].count == n
      && counters[(id, w)].expires.Some? && counters[(id, w)].expires.value > ((w + 1) * WINDOW) as real
  }

  lemma {:induction false} CountersStayExact(reqs: seq<Request>, id: Identifier, w: int)
    requires Ordered(reqs)
    ensures CounterIsExact(CountersAfter(reqs), reqs, id, w)
  {
    if reqs != [] {
      var n := |reqs| - 1;
      CountersStayExact(reqs[..n], id, w);
      assert WindowOf(reqs[n].at) * WINDOW <= reqs[n].at.Floor < (WindowOf(reqs[n].at) + 1) * WINDOW;
    }
  }

  lemma WindowHoldsNow(now: real)
    ensures WindowOf(now) * WINDOW <= now.Floor < (WindowOf(now) + 1) * WINDOW
    ensures (WindowOf(now) + 1) * WINDOW % WINDOW == 0
  {
  }

  lemma CountContinues(counters: Counters, reqs: seq<Request>, id: Identifier, now: real)
    requires CounterIsExact(counters, reqs, id, WindowOf(now))
    ensures Incr(counters, (id, WindowOf(now)), now).count == Arrivals(reqs, id, WindowOf(now)) + 1
  {
  }

  /** The k-th request of an identifier in a window is let through exactly if k is within the limit, and its headers say so. */
  lemma KthRequestOfAWindow(reqs: seq<Request>, limits: Limits)
    requires Ordered(reqs) && reqs != []
    ensures var r, n := reqs[|reqs| - 1], |reqs| - 1;
            var k, limit := Arrivals(reqs, r.id, WindowOf(r.at)), LimitOf(limits, r.id);
            var d := Decide(CountersAfter(reqs[..n]), r.id, limit, r.at);
            && (d.allowed <==> k <= limit)
            && d.remaining == Max(0, limit - k)
            && d.resetAt - WINDOW <= r.at.Floor < d.resetAt && d.resetAt % WINDOW == 0
  {
    var r, n := reqs[|reqs| - 1], |reqs| - 1;
    CountersStayExact(reqs[..n], r.id, WindowOf(r.at));
    CountContinues(CountersAfter(reqs[..n]), reqs[..n], r.id, r.at);
    WindowHoldsNow(r.at);
  }

  /** Each aligned window lets through exactly min(requests, limit). */
  lemma {:induction false} WindowsAreExact(reqs: seq<Request>, limits: Limits, id: Identifier, w: int)
    requires Ordered(reqs)
    ensures Allowed(reqs, limits, id, w) == Min(Arrivals(reqs, id, w), LimitOf(limits, id))
  {
    if reqs != [] {
      WindowsAreExact(reqs[..|reqs| - 1], limits, id, w);
      KthRequestOfAWindow(reqs, limits);
    }
  }

  /** Any 60 seconds touch two windows; they catch all the interval holds, and no more if the run lies in it. */
  lemma {:induction false} IntervalWithinTwoWindows(reqs: seq<Request>, limits: Limits, id: Identifier, start: real)
    ensures AllowedFrom(reqs, limits, id, start) <=
            Allowed(reqs, limits, id, WindowOf(start)) + Allowed(reqs, limits, id, WindowOf(start) + 1)
    ensures (forall i | 0 <= i < |reqs| :: start <= reqs[i].at < start + WINDOW as real) ==>
              AllowedFrom(reqs, limits, id, start) ==
              Allowed(reqs, limits, id, WindowOf(start)) + Allowed(reqs, limits, id, WindowOf(start) + 1)
  {
    if reqs != [] {
      IntervalWithinTwoWindows(reqs[..|reqs| - 1], limits, id, start);
      var at := reqs[|reqs| - 1].at;
      if start <= at < start + WINDOW as real { WindowsNearby(start, at); }
    }
  }

  lemma WindowsNearby(start: real, at: real)
    requires start <= at < start + WINDOW as real
    ensures WindowOf(start) <= WindowOf(at) <= WindowOf(start) + 1
  {
  }

  /** Any 60 seconds let through at most twice the limit. */
  lemma AnyMinuteAllowsTwiceTheLimit(reqs: seq<Request>, limits: Limits, id: Identifier, start: real)
    requires Ordered(reqs)
    ensures AllowedFrom(reqs, limits, id, start) <= 2 * LimitOf(limits, id)
  {
    IntervalWithinTwoWindows(reqs, limits, id, start);
    WindowsAreExact(reqs, limits, id, WindowOf(start));
    WindowsAreExact(reqs, limits, id, WindowOf(start) + 1);
  }

  // ---------- against a sliding window ----------

  /** What a sliding window of 60 seconds would promise. */
  ghost predicate SlidesWithin(limits: Limits, id: Identifier) {
    forall reqs, start | Ordered(reqs) :: AllowedFrom(reqs, limits, id, start) <= LimitOf(limits, id)
  }

  function Burst(id: Identifier, n: nat, at: real): seq<Request> {
    seq(n, _ => Request(id, at))
  }

  lemma {:induction false} BurstArrives(before: seq<Request>, id: Identifier, n: nat, at: real, w: int)
    ensures Arrivals(before + Burst(id, n, at), id, w) == Arrivals(before, id, w) + if WindowOf(at) == w then n else 0
  {
    var reqs := before + Burst(id, n, at);
    if n == 0 {
      assert reqs == before;
    } else {
      BurstArrives(before, id, n - 1, at, w);
      assert reqs[..|reqs| - 1] == before + Burst(id, n - 1, at);
    }
  }

  /** Bursts on both sides of a window boundary get through in full, within one second. */
  lemma BurstsAcrossABoundary(limits: Limits, id: Identifier)
    ensures var n := LimitOf(limits, id);
            var reqs := Burst(id, n, 59.0) + Burst(id, n, 60.0);
            Ordered(reqs) && AllowedFrom(reqs, limits, id, 59.0) == 2 * n
  {
    var n := LimitOf(limits, id);
    var reqs := Burst(id, n, 59.0) + Burst(id, n, 60.0);
    assert (59.0 as real).Floor == 59 && (60.0 as real).Floor == 60;
    forall w ensures Arrivals(Burst(id, n, 59.0), id, w) == if w == 0 then n else 0 {
      BurstArrives([], id, n, 59.0, w);
      assert [] + Burst(id, n, 59.0) == Burst(id, n, 59.0);
    }
    BurstArrives(Burst(id, n, 59.0), id, n, 60.0, 0);
    BurstArrives(Burst(id, n, 59.0), id, n, 60.0, 1);
    WindowsAreExact(reqs, limits, id, 0);
    WindowsAreExact(reqs, limits, id, 1);
    IntervalWithinTwoWindows(reqs, limits, id, 59.0);
  }

  /** The counter is no sliding window, unless nothing is let through at all. */
  lemma SlidesExactlyWhenShut(limits: Limits, id: Identifier)
    ensures SlidesWithin(limits, id) <==> LimitOf(limits, id) == 0
  {
    BurstsAcrossABoundary(limits, id);
    if LimitOf(limits, id) == 0 {
      forall reqs, start | Ordered(reqs) ensures AllowedFrom(reqs, limits, id, start) <= 0 {
        AnyMinuteAllowsTwiceTheLimit(reqs, limits, id, start);
      }
    }
  }

  // ---------- the middleware ----------

  class RateLimitMiddleware {
    var counters: Counters

    constructor ()
      ensures counters == map[]
    {
      counters := map[];
    }

    method CheckRateLimit(id: Identifier, limit: nat, now: real) returns (d: Decision)
      modifies this
      ensures counters == CountRequest(old(counters), id, now)
      ensures d == Decide(old(counters), id, limit, now)
    {
      var windowKey := now.Floor / WINDOW;
      var resetAt := (windowKey + 1) * WINDOW;
      var key := (id, windowKey);
      var counter := Incr(counters, key, now);
      counters := counters[key := counter];
      if counter.count == 1 {
        counters := counters[key := counter.(expires := Some(now + (WINDOW + 1) as real))];
      }
      return Decision(counter.count <= limit, Max(0, limit - counter.count), resetAt);
    }
  }
}
