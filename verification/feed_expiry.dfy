/**
 The time to live of a ranked feed's key: setting a feed gives it 300 seconds, a prepend gives it none. Expiry
 is a Drop in the run of writes at the moment the next command finds the key gone.
 */
module FeedExpiry {
  import opened Common
  import opened SortedSets
  import opened FeedCache

  const DEFAULT_TTL: real := 300.0

  datatype StoredKey = StoredKey(z: ZSet, expires: Option<real>)

  datatype Timed = Timed(write: Write, at: real)

  /** The key as a command at that time finds it. */
  function Live(k: Option<StoredKey>, now: real): Option<StoredKey> {
    if k.Some? && k.value.expires.Some? && k.value.expires.value <= now then None else k
  }

  function EntriesOf(k: Option<StoredKey>): ZSet {
    if k.None? then [] else k.value.z
  }

  /** A set without entries is no key. */
  function Keep(z: ZSet, expires: Option<real>): Option<StoredKey> {
    if z == [] then None else Some(StoredKey(z, expires))
  }

  /** ZADD, ZREM and the trim leave a key's expiry; a key they make has none. DEL, ZADD and EXPIRE make one that lasts 300 seconds. */
  function Apply(k: Option<StoredKey>, w: Write, at: real, idOf: IdOf): Option<StoredKey> {
    var live := Live(k, at);
    var expires := if live.None? then None else live.value.expires;
    if w.SetRanked? && w.posts == [] then live
    else Keep(AfterWrite(EntriesOf(live), w, idOf), if w.SetRanked? then Some(at + DEFAULT_TTL) else expires)
  }

  function KeyAfter(ts: seq<Timed>, idOf: IdOf): Option<StoredKey> {
    if ts == [] then None else
      var last := ts[|ts| - 1];
      Apply(KeyAfter(ts[..|ts| - 1], idOf), last.write, last.at, idOf)
  }

  // ---------- the clock adds nothing but drops ----------

  /** The writes, with a Drop wherever one found the key expired. */
  function Clockless(ts: seq<Timed>, idOf: IdOf): seq<Write> {
    if ts == [] then [] else
      var before, last := ts[..|ts| - 1], ts[|ts| - 1];
      Clockless(before, idOf) + Lapse(KeyAfter(before, idOf), last.at) + [last.write]
  }

  lemma StoredAfterOne(writes: seq<Write>, w: Write, idOf: IdOf)
    ensures Stored(writes + [w], idOf) == AfterWrite(Stored(writes, idOf), w, idOf)
  {
    assert (writes + [w])[..|writes|] == writes;
  }

  lemma ApplyIsAfterWrite(k: Option<StoredKey>, w: Write, at: real, idOf: IdOf)
    ensures EntriesOf(Apply(k, w, at, idOf)) == AfterWrite(EntriesOf(Live(k, at)), w, idOf)
    ensures (k.Some? ==> k.value.z != []) ==> (Apply(k, w, at, idOf).Some? ==> Apply(k, w, at, idOf).value.z != [])
  {
  }

  function Lapse(k: Option<StoredKey>, at: real): seq<Write> {
    if k.Some? && Live(k, at).None? then [Drop] else []
  }

  lemma LapseIsDrop(k: Option<StoredKey>, at: real, writes: seq<Write>, idOf: IdOf)
    requires EntriesOf(k) == Stored(writes, idOf)
    ensures EntriesOf(Live(k, at)) == Stored(writes + Lapse(k, at), idOf)
  {
    if Lapse(k, at) == [] {
      assert writes + [] == writes;
    } else {
      StoredAfterOne(writes, Drop, idOf);
    }
  }

  /** So all that holds of runs of writes holds of the key, whenever its commands come. */
  lemma {:induction false} ExpiryIsDrop(ts: seq<Timed>, idOf: IdOf)
    ensures EntriesOf(KeyAfter(ts, idOf)) == Stored(Clockless(ts, idOf), idOf)
    ensures KeyAfter(ts, idOf).Some? ==> EntriesOf(KeyAfter(ts, idOf)) != []
  {
    if ts != [] {
      var before, last := ts[..|ts| - 1], ts[|ts| - 1];
      var k, writes := KeyAfter(before, idOf), Clockless(before, idOf);
      ExpiryIsDrop(before, idOf);
      LapseIsDrop(k, last.at, writes, idOf);
      StoredAfterOne(writes + Lapse(k, last.at), last.write, idOf);
      ApplyIsAfterWrite(k, last.write, last.at, idOf);
    }
  }

  // ---------- which keys expire ----------

  /** The key was made by a prepend that found none, and not set since. */
  predicate MadeByPrepend(ts: seq<Timed>, idOf: IdOf) {
    ts != [] && (
      var before, last := ts[..|ts| - 1], ts[|ts| - 1];
      match last.write
      case SetRanked(posts) => posts == [] && MadeByPrepend(before, idOf)
      case Prepend(_) => Live(KeyAfter(before, idOf), last.at).None? || MadeByPrepend(before, idOf)
      case Remove(_) => MadeByPrepend(before, idOf)
      case Drop => false)
  }

  /** When the feed was last set. */
  function LastSet(ts: seq<Timed>): Option<real> {
    if ts == [] then None else
      var last := ts[|ts| - 1];
      if last.write.SetRanked? && last.write.posts != [] then Some(last.at) else LastSet(ts[..|ts| - 1])
  }

  /** A key has no expiry exactly if a prepend made it; any other expires 300 seconds after the feed was last set. */
  lemma {:induction false} KeyExpiresExactly(ts: seq<Timed>, idOf: IdOf)
    requires KeyAfter(ts, idOf).Some?
    ensures KeyAfter(ts, idOf).value.expires.None? <==> MadeByPrepend(ts, idOf)
    ensures !MadeByPrepend(ts, idOf) ==>
              LastSet(ts).Some? && KeyAfter(ts, idOf).value.expires == Some(LastSet(ts).value + DEFAULT_TTL)
  {
    if ts != [] {
      var before, last := ts[..|ts| - 1], ts[|ts| - 1];
      if KeyAfter(before, idOf).Some? {
        KeyExpiresExactly(before, idOf);
      }
    }
  }

  /** A feed that is set can be read for five minutes to the second. */
  lemma SetFeedLastsFiveMinutes(k: Option<StoredKey>, posts: seq<Entry>, at: real, now: real, idOf: IdOf)
    requires posts != []
    ensures Live(Apply(k, SetRanked(posts), at, idOf), now).Some? <==> now < at + 300.0
  {
    ReplacedIsStorable(EntriesOf(Live(k, at)), posts);
  }

  // ---------- the requests that write ----------

  /** Reading the feed with the posts and scores that would be stored on a miss, a fan-out, or a sweep for a post. */
  datatype Request = ReadFeed(limit: int, scored: seq<Entry>) | FanOut(entry: Entry) | Sweep(post: string)

  /** The handler looks at the cache for limits up to 20. */
  function CachedAnswer(k: Option<StoredKey>, limit: int, now: real): Option<seq<Member>> {
    if limit <= 20 then Ranked(EntriesOf(Live(k, now)), limit) else None
  }

  /** The write that a request leads to: a feed that is answered from the cache is not set again. */
  function WriteOf(k: Option<StoredKey>, r: Request, now: real): Option<Write> {
    match r
    case ReadFeed(limit, scored) => if CachedAnswer(k, limit, now).Some? then None else Some(SetRanked(scored))
    case FanOut(e) => Some(Prepend(e))
    case Sweep(post) => Some(Remove(post))
  }

  function Handled(k: Option<StoredKey>, r: Request, now: real, idOf: IdOf): Option<StoredKey> {
    var w := WriteOf(k, r, now);
    if w.None? then k else Apply(k, w.value, now, idOf)
  }

  /** A key that is there for good. */
  predicate Persistent(k: Option<StoredKey>) {
    k.Some? && k.value.z != [] && k.value.expires.None?
  }

  /** A persistent key is found as it is, and a write that is not a new feed keeps it so unless it empties it. */
  lemma WriteKeepsPersistent(k: Option<StoredKey>, w: Write, now: real, idOf: IdOf)
    requires Persistent(k) && !w.SetRanked?
    ensures EntriesOf(Apply(k, w, now, idOf)) == AfterWrite(k.value.z, w, idOf)
    ensures Persistent(Apply(k, w, now, idOf)) <==> AfterWrite(k.value.z, w, idOf) != []
  {
  }

  lemma ReadKeepsPersistent(k: Option<StoredKey>, limit: int, scored: seq<Entry>, now: real, idOf: IdOf)
    requires Persistent(k) && WellFormed(k.value.z)
    ensures WellFormed(EntriesOf(Handled(k, ReadFeed(limit, scored), now, idOf)))
    ensures Persistent(Handled(k, ReadFeed(limit, scored), now, idOf)) <==>
            scored == [] || (limit <= 20 && (limit >= 1 || |k.value.z| + limit > 0))
  {
    RankedTakesFromTop(k.value.z, limit);
    if scored != [] { ReplacedIsStorable(k.value.z, scored); }
  }

  lemma FanOutKeepsPersistent(k: Option<StoredKey>, e: Entry, now: real, idOf: IdOf)
    requires Persistent(k) && WellFormed(k.value.z)
    ensures Persistent(Handled(k, FanOut(e), now, idOf)) && WellFormed(EntriesOf(Handled(k, FanOut(e), now, idOf)))
  {
    PutTwice(k.value.z, e);
    WriteKeepsPersistent(k, Prepend(e), now, idOf);
  }

  lemma SweepKeepsPersistent(k: Option<StoredKey>, post: string, now: real, idOf: IdOf)
    requires Persistent(k) && WellFormed(k.value.z)
    ensures WellFormed(EntriesOf(Handled(k, Sweep(post), now, idOf)))
    ensures Persistent(Handled(k, Sweep(post), now, idOf)) <==> exists e | e in k.value.z :: idOf(e.member) != Some(post)
  {
    var rest := Without(k.value.z, idOf, post);
    FilterElements(k.value.z, x => idOf(x) == Some(post));
    FilterWellFormed(k.value.z, x => idOf(x) == Some(post));
    LowestIsEntry(rest);
    WriteKeepsPersistent(k, Remove(post), now, idOf);
  }

  /**
   Whatever the time, a persistent key stays persistent under a request exactly if that is no read that sets the
   feed anew (a limit over 20, or one so far below 1 that nothing is left of the set) and no sweep of its last post.
   */
  lemma StaysPersistentExactly(k: Option<StoredKey>, r: Request, now: real, idOf: IdOf)
    requires Persistent(k) && WellFormed(k.value.z)
    ensures WellFormed(EntriesOf(Handled(k, r, now, idOf)))
    ensures Persistent(Handled(k, r, now, idOf)) <==>
            match r
            case ReadFeed(limit, scored) => scored == [] || (limit <= 20 && (limit >= 1 || |k.value.z| + limit > 0))
            case FanOut(_) => true
            case Sweep(post) => exists e | e in k.value.z :: idOf(e.member) != Some(post)
  {
    match r
    case ReadFeed(limit, scored) => ReadKeepsPersistent(k, limit, scored, now, idOf);
    case FanOut(e) => FanOutKeepsPersistent(k, e, now, idOf);
    case Sweep(post) => SweepKeepsPersistent(k, post, now, idOf);
  }

  /** The reads of a client that never asks for more than 20 posts, and any fan-outs, at any times. */
  predicate SmallReads(rs: seq<(Request, real)>) {
    forall i | 0 <= i < |rs| :: rs[i].0.FanOut? || (rs[i].0.ReadFeed? && 1 <= rs[i].0.limit <= 20)
  }

  function KeyAfterRequests(k: Option<StoredKey>, rs: seq<(Request, real)>, idOf: IdOf): Option<StoredKey> {
    if rs == [] then k else
      var n := |rs| - 1;
      Handled(KeyAfterRequests(k, rs[..n], idOf), rs[n].0, rs[n].1, idOf)
  }

  /** A feed that a fan-out started is never read from the database again: every such read is answered from the cache, for ever. */
  lemma {:induction false} FannedOutFeedIsNeverRefreshed(
    e: Entry, at: real, rs: seq<(Request, real)>, idOf: IdOf, limit: int, now: real)
    requires SmallReads(rs) && 1 <= limit <= 20
    ensures var k := KeyAfterRequests(Apply(None, Prepend(e), at, idOf), rs, idOf);
            Persistent(k) && WellFormed(k.value.z) && CachedAnswer(k, limit, now).Some?
  {
    if rs == [] {
      PutTwice([], e);
    } else {
      var n := |rs| - 1;
      FannedOutFeedIsNeverRefreshed(e, at, rs[..n], idOf, limit, now);
      StaysPersistentExactly(KeyAfterRequests(Apply(None, Prepend(e), at, idOf), rs[..n], idOf), rs[n].0, rs[n].1, idOf);
    }
    RankedTakesFromTop(KeyAfterRequests(Apply(None, Prepend(e), at, idOf), rs, idOf).value.z, limit);
  }
}
