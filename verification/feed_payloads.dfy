/**
 The members of a ranked feed are JSON texts of posts. A sweep compares their ids as texts, and two texts of
 one post are two members.
 */
module FeedPayloads {
  import opened Common
  import opened SortedSets
  import opened FeedCache
  import UuidText
  import CursorCodec

  // ---------- sweeping for a post under the spelling of a path ----------

  predicate IsId(id: Uuid) {
    id < UuidText.Pow16(UuidText.DIGITS)
  }

  /** Every payload was written with the id as str() writes it. */
  ghost predicate CanonicalPayloads(feeds: Feeds, idOf: IdOf) {
    forall u, e | u in feeds && e in feeds[u] && idOf(e.member).Some? ::
      exists id | IsId(id) :: idOf(e.member).value == UuidText.Canonical(id)
  }

  /** The post is in no feed. */
  ghost predicate Absent(feeds: Feeds, idOf: IdOf, id: Uuid) {
    forall u, e | u in feeds && e in feeds[u] :: idOf(e.member) != Some(UuidText.Canonical(id))
  }

  /** One id has one canonical text. */
  lemma CanonicalSpellsOneId(other: Uuid, id: Uuid)
    requires IsId(other) && UuidText.ParseUuid(UuidText.Canonical(other)) == Some(id)
    ensures other == id
  {
    UuidText.CanonicalReadsBack(other);
  }

  lemma OtherSpellingIsNoPayload(feeds: Feeds, idOf: IdOf, id: Uuid, text: string)
    requires CanonicalPayloads(feeds, idOf) && UuidText.ParseUuid(text) == Some(id) && text != UuidText.Canonical(id)
    ensures forall u, e | u in feeds && e in feeds[u] :: idOf(e.member) != Some(text)
  {
    forall u, e: Entry | u in feeds && e in feeds[u] && idOf(e.member) == Some(text) ensures false {
      var other :| IsId(other) && idOf(e.member).value == UuidText.Canonical(other);
      CanonicalSpellsOneId(other, id);
    }
  }

  lemma SweptTextIsGone(feeds: Feeds, idOf: IdOf, text: string)
    ensures var r := Swept(feeds, feeds.Keys, idOf, text);
            forall u, e | u in r && e in r[u] :: idOf(e.member) != Some(text)
  {
    forall u | u in feeds ensures forall e | e in Without(feeds[u], idOf, text) :: idOf(e.member) != Some(text) {
      FilterElements(feeds[u], m => idOf(m) == Some(text));
    }
  }

  /** A handler sweeps for the text of its path. That removes the post exactly if the text is the canonical one (or there is nothing to remove). */
  lemma SweepReachesThePostExactly(feeds: Feeds, idOf: IdOf, id: Uuid, text: string)
    requires ValidFeeds(feeds) && CanonicalPayloads(feeds, idOf) && UuidText.ParseUuid(text) == Some(id)
    ensures Absent(Swept(feeds, feeds.Keys, idOf, text), idOf, id) <==> text == UuidText.Canonical(id) || Absent(feeds, idOf, id)
    ensures text != UuidText.Canonical(id) ==> Swept(feeds, feeds.Keys, idOf, text) == feeds
  {
    if text == UuidText.Canonical(id) {
      SweptTextIsGone(feeds, idOf, text);
    } else {
      OtherSpellingIsNoPayload(feeds, idOf, id, text);
      SweepOfAnotherTextRemovesNothing(feeds, idOf, text);
    }
  }

  /** A PUT or DELETE that writes the id without hyphens leaves every feed as it is, the post included. */
  lemma BareDigitsSweepNothing(feeds: Feeds, idOf: IdOf, id: Uuid)
    requires ValidFeeds(feeds) && CanonicalPayloads(feeds, idOf) && IsId(id)
    ensures var text := UuidText.Hex(id, UuidText.DIGITS);
            UuidText.ParseUuid(text) == Some(id) && Swept(feeds, feeds.Keys, idOf, text) == feeds
  {
    UuidText.EveryIdHasTwoSpellings(id);
    SweepReachesThePostExactly(feeds, idOf, id, UuidText.Hex(id, UuidText.DIGITS));
  }

  // ---------- one post under two payloads ----------

  /** No id appears twice among the answers. */
  predicate ShowsEachOnce(answer: seq<Member>, idOf: IdOf) {
    forall i, j | 0 <= i < j < |answer| && idOf(answer[i]).Some? :: idOf(answer[i]) != idOf(answer[j])
  }

  predicate OnePayloadEach(z: ZSet, idOf: IdOf) {
    forall e, f | e in z && f in z && idOf(e.member).Some? && idOf(e.member) == idOf(f.member) :: e == f
  }

  /** Reads of a set show no post twice, whatever their limit, exactly if the set has no post under two payloads. */
  lemma ReadsShowEachOnceExactly(z: ZSet, idOf: IdOf)
    requires WellFormed(z)
    ensures (forall limit :: Ranked(z, limit).Some? ==> ShowsEachOnce(Ranked(z, limit).value, idOf)) <==> OnePayloadEach(z, idOf)
  {
    if OnePayloadEach(z, idOf) {
      forall limit | Ranked(z, limit).Some? ensures ShowsEachOnce(Ranked(z, limit).value, idOf) {
        PrefixShowsEachOnce(z, idOf, limit);
      }
    } else {
      var e, f :| e in z && f in z && idOf(e.member).Some? && idOf(e.member) == idOf(f.member) && e != f;
      FullReadRepeats(z, idOf, e, f);
    }
  }

  lemma PrefixShowsEachOnce(z: ZSet, idOf: IdOf, limit: int)
    requires WellFormed(z) && OnePayloadEach(z, idOf) && Ranked(z, limit).Some?
    ensures ShowsEachOnce(Ranked(z, limit).value, idOf)
  {
    RankedTakesFromTop(z, limit);
    var answer := Ranked(z, limit).value;
    forall i, j | 0 <= i < j < |answer| && idOf(answer[i]).Some? ensures idOf(answer[i]) != idOf(answer[j]) {
      var e, f := z[|z| - 1 - i], z[|z| - 1 - j];
      assert e in z && f in z && e != f;
    }
  }

  lemma FullReadRepeats(z: ZSet, idOf: IdOf, e: Entry, f: Entry)
    requires WellFormed(z) && e in z && f in z && e != f && idOf(e.member).Some? && idOf(e.member) == idOf(f.member)
    ensures Ranked(z, |z|).Some? && !ShowsEachOnce(Ranked(z, |z|).value, idOf)
  {
    var i :| 0 <= i < |z| && z[i] == e;
    var j :| 0 <= j < |z| && z[j] == f;
    RankedTakesFromTop(z, |z|);
    var answer := Ranked(z, |z|).value;
    assert answer[|z| - 1 - i] == e.member && answer[|z| - 1 - j] == f.member;
  }

  /** What is stored was written, with the score it was last written with. */
  lemma {:induction false} StoredWasWritten(writes: seq<Write>, idOf: IdOf)
    ensures WellFormed(Stored(writes, idOf))
    ensures forall e | e in Stored(writes, idOf) :: e.member in Written(writes, idOf) && Written(writes, idOf)[e.member] == e.score
  {
    StoredIsBounded(writes, idOf);
    if writes != [] {
      var before, last := writes[..|writes| - 1], writes[|writes| - 1];
      StoredWasWritten(before, idOf);
      match last
      case SetRanked(posts) => if posts != [] { ReplacedIsTop(Stored(before, idOf), posts); }
      case Prepend(e) =>
        AddedIsHeld(Stored(before, idOf), Written(before, idOf), e);
        ZAddElements(Stored(before, idOf), e);
        KeepTopParts(ZAdd(Stored(before, idOf), e), MAX_FEED_SIZE);
      case Remove(post) => FilterElements(Stored(before, idOf), x => idOf(x) == Some(post));
      case Drop =>
    }
  }

  /** So over a run that writes each post under one payload no read shows a post twice. */
  lemma OnePayloadWrittenSuffices(writes: seq<Write>, idOf: IdOf, limit: int)
    requires forall x, y | x in Written(writes, idOf) && y in Written(writes, idOf) && idOf(x).Some? && idOf(x) == idOf(y) :: x == y
    requires Ranked(Stored(writes, idOf), limit).Some?
    ensures ShowsEachOnce(Ranked(Stored(writes, idOf), limit).value, idOf)
  {
    StoredWasWritten(writes, idOf);
    var z := Stored(writes, idOf);
    forall e: Entry, f: Entry | e in z && f in z && idOf(e.member).Some? && idOf(e.member) == idOf(f.member) ensures e == f {
      assert e.member == f.member;
    }
    ReadsShowEachOnceExactly(z, idOf);
  }

  // ---------- the two writers ----------

  /** str(t), which the feed writes where the fan-out writes isoformat: a space takes the place of the T. */
  function Str(t: CursorCodec.DateTime): string
    requires CursorCodec.Valid(t)
  {
    CursorCodec.FormatDate(t.year, t.month, t.day) + " " + CursorCodec.FormatClock(t.clock) + CursorCodec.Zone(t.offset)
  }

  lemma TimesAreWrittenApart(t: CursorCodec.DateTime)
    requires CursorCodec.Valid(t)
    ensures Str(t) != CursorCodec.Iso(t)
  {
    CursorCodec.IsoParts(CursorCodec.FormatDate(t.year, t.month, t.day), CursorCodec.FormatClock(t.clock), CursorCodec.Zone(t.offset));
    assert Str(t)[10] == ' ';
  }

  /** json.dumps of a post, as a function of its created_at text: the id can be read out, and different texts show. */
  ghost predicate WritesPost(payload: string -> Member, idOf: IdOf, id: Uuid) {
    && (forall text :: idOf(payload(text)) == Some(UuidText.Canonical(id)))
    && forall text, other :: payload(text) == payload(other) ==> text == other
  }

  /** A post that is served, and so cached, before its fan-out arrives is in the feed twice afterwards, and a read shows it twice. */
  lemma FanOutRepeatsAServedPost(
    served: seq<Member>, clock: seq<real>, payload: string -> Member, idOf: IdOf, id: Uuid, t: CursorCodec.DateTime, score: real)
    requires |clock| == |served| && CursorCodec.Valid(t)
    ensures && NonDecreasing(clock) && Distinct(served) && |served| < MAX_FEED_SIZE
            && WritesPost(payload, idOf, id)
            && payload(Str(t)) in served && payload(CursorCodec.Iso(t)) !in served ==>
              var writes := [SetRanked(ScoredForCache(served, clock)), Prepend(Entry(payload(CursorCodec.Iso(t)), score))];
              var z := Stored(writes, idOf);
              Ranked(z, |z|).Some? && !ShowsEachOnce(Ranked(z, |z|).value, idOf)
  {
    if && NonDecreasing(clock) && Distinct(served) && |served| < MAX_FEED_SIZE
       && WritesPost(payload, idOf, id)
       && payload(Str(t)) in served && payload(CursorCodec.Iso(t)) !in served
    {
      var scored, e := ScoredForCache(served, clock), Entry(payload(CursorCodec.Iso(t)), score);
      var i :| 0 <= i < |served| && served[i] == payload(Str(t));
      var f := scored[|served| - 1 - i];
      StoredAfterServing(served, clock, e, idOf);
      TimesAreWrittenApart(t);
      assert f.member == payload(Str(t)) && f in scored;
      FullReadRepeats(Stored([SetRanked(scored), Prepend(e)], idOf), idOf, e, f);
    }
  }

  /** With room left, a new entry joins the served ones. */
  lemma StoredAfterServing(served: seq<Member>, clock: seq<real>, e: Entry, idOf: IdOf)
    requires |clock| == |served| && NonDecreasing(clock) && Distinct(served) && 0 < |served| < MAX_FEED_SIZE
    requires e.member !in served
    ensures var scored := ScoredForCache(served, clock);
            var z := Stored([SetRanked(scored), Prepend(e)], idOf);
            WellFormed(z) && e in z && forall f | f in scored :: f in z
  {
    var scored := ScoredForCache(served, clock);
    var writes := [SetRanked(scored), Prepend(e)];
    assert writes[..1] == [SetRanked(scored)] && writes[..1][..0] == [];
    assert Stored(writes[..1], idOf) == Replaced([], scored);
    ServedIsStoredAscending([], served, clock);
    assert scored[0..] == scored;
    ScoredAscends(served, clock);
    ZAddElements(scored, e);
  }
}
