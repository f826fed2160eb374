/**
 Scoring and ranking of feed candidates. Scores are reals; the exponential is a parameter `decay` that
 stands for x -> exp(-x), of which only its bounds are used.
 */
module FeedRanking {
  import opened Common

  /** A datetime, in seconds, and whether it carries a time zone: rows read from PostgreSQL do. */
  datatype Timestamp = Timestamp(at: real, aware: bool)

  datatype Candidate = Candidate(
    id: Uuid, author: Uuid, likeCount: int, commentCount: int,
    mediaCount: nat, contentLength: nat, createdAt: Option<Timestamp>)

  datatype ScoringError = MixedTimeZones

  ghost predicate DecaysWithinUnit(decay: real -> real) {
    forall x | x >= 0.0 :: 0.0 <= decay(x) <= 1.0
  }

  function RealMax(a: real, b: real): real {
    if a >= b then a else b
  }

  function RealMin(a: real, b: real): real {
    if a <= b then a else b
  }

  // ---------- affinities ----------

  function CalculateAffinity(likes: int, comments: int, decay: real -> real): real {
    var weighted := likes as real * 1.0 + comments as real * 3.0;
    if weighted <= 0.0 then 0.0 else RealMin(1.0, 1.0 - decay(weighted / 50.0))
  }

  function CountsOf(counts: map<Uuid, (int, int)>, author: Uuid): (int, int) {
    if author in counts then counts[author] else (0, 0)
  }

  /** compute_affinities: one entry for each author asked about, none for others. */
  method ComputeAffinities(authors: seq<Uuid>, counts: map<Uuid, (int, int)>, decay: real -> real)
    returns (affinities: map<Uuid, real>)
    ensures affinities.Keys == set a | a in authors
    ensures forall a | a in authors ::
              affinities[a] == CalculateAffinity(CountsOf(counts, a).0, CountsOf(counts, a).1, decay)
  {
    affinities := map[];
    var i := 0;
    while i < |authors|
      invariant 0 <= i <= |authors|
      invariant affinities.Keys == set a | a in authors[..i]
      invariant forall a | a in authors[..i] ::
                  affinities[a] == CalculateAffinity(CountsOf(counts, a).0, CountsOf(counts, a).1, decay)
    {
      var (likes, comments) := CountsOf(counts, authors[i]);
      affinities := affinities[authors[i] := CalculateAffinity(likes, comments, decay)];
      i := i + 1;
      assert authors[..i] == authors[..i - 1] + [authors[i - 1]];
    }
    assert authors[..i] == authors;
  }

  lemma AffinityWithinUnit(likes: int, comments: int, decay: real -> real)
    requires DecaysWithinUnit(decay)
    ensures 0.0 <= CalculateAffinity(likes, comments, decay) <= 1.0
  {
  }

  // ---------- the four components ----------

  /** Subtracting an aware datetime from the naive utcnow() raises; a post without a time scores nothing. */
  function RecencyScore(c: Candidate, now: real, decay: real -> real): Result<real, ScoringError> {
    match c.createdAt
    case None => Success(0.0)
    case Some(t) =>
      if t.aware then Failure(MixedTimeZones)
      else Success(40.0 * decay(RealMax((now - t.at) / 3600.0, 0.0) / 24.0))
  }

  function EngagementScore(c: Candidate): real {
    RealMin(30.0, (c.likeCount as real * 1.0 + c.commentCount as real * 3.0) * 0.3)
  }

  function AffinityScore(c: Candidate, affinities: map<Uuid, real>): real {
    20.0 * if c.author in affinities then affinities[c.author] else 0.1
  }

  function ContentScore(c: Candidate): real {
    RealMin(10.0, (if c.mediaCount > 0 then 5.0 else 0.0) + (if c.contentLength > 100 then 5.0 else 0.0))
  }

  function TotalScore(c: Candidate, affinities: map<Uuid, real>, now: real, decay: real -> real): Result<real, ScoringError> {
    var recency := RecencyScore(c, now, decay);
    if recency.Failure? then recency
    else Success(recency.value + EngagementScore(c) + AffinityScore(c, affinities) + ContentScore(c))
  }

  lemma ScoreWithinHundred(c: Candidate, affinities: map<Uuid, real>, now: real, decay: real -> real)
    requires DecaysWithinUnit(decay) && c.likeCount >= 0 && c.commentCount >= 0
    requires forall a | a in affinities :: 0.0 <= affinities[a] <= 1.0
    requires TotalScore(c, affinities, now, decay).Success?
    ensures 0.0 <= TotalScore(c, affinities, now, decay).value <= 100.0
    ensures affinities == map[] ==> 2.0 <= TotalScore(c, affinities, now, decay).value <= 82.0
  {
  }

  function Engaged(c: Candidate, likes: nat, comments: nat): Candidate {
    c.(likeCount := c.likeCount + likes, commentCount := c.commentCount + comments)
  }

  /** More likes and comments never lower the score. */
  lemma EngagementOnlyRaises(c: Candidate, likes: nat, comments: nat, affinities: map<Uuid, real>, now: real, decay: real -> real)
    requires TotalScore(c, affinities, now, decay).Success?
    ensures var d := Engaged(c, likes, comments);
            && TotalScore(d, affinities, now, decay).Success?
            && TotalScore(d, affinities, now, decay).value >= TotalScore(c, affinities, now, decay).value
  {
  }

  /** exp(-x) falls. */
  ghost predicate Decreases(decay: real -> real) {
    forall x, y | 0.0 <= x <= y :: decay(x) >= decay(y)
  }

  /** A later post never scores less, all else equal, and a post from the future scores as one from now. */
  lemma NewerScoresNoLess(c: Candidate, older: real, newer: real, affinities: map<Uuid, real>, now: real, decay: real -> real)
    requires Decreases(decay) && older <= newer
    ensures TotalScore(PostedAt(c, older), affinities, now, decay).value <= TotalScore(PostedAt(c, newer), affinities, now, decay).value
    ensures newer >= now ==> TotalScore(PostedAt(c, newer), affinities, now, decay) == TotalScore(PostedAt(c, now), affinities, now, decay)
  {
    var x, y := RealMax((now - newer) / 3600.0, 0.0) / 24.0, RealMax((now - older) / 3600.0, 0.0) / 24.0;
    assert 0.0 <= x <= y;
    assert decay(x) >= decay(y);
    if newer >= now { assert RealMax((now - newer) / 3600.0, 0.0) == 0.0 == RealMax((now - now) / 3600.0, 0.0); }
  }

  /** The candidate with a creation time that carries no time zone. */
  function PostedAt(c: Candidate, at: real): (d: Candidate)
    ensures forall affinities, now, decay :: TotalScore(d, affinities, now, decay).Success?
  {
    c.(createdAt := Some(Timestamp(at, false)))
  }

  /** A comment is worth three likes, to a post's score and to its author's affinity. */
  lemma CommentIsWorthThreeLikes(c: Candidate, n: nat, affinities: map<Uuid, real>, now: real, decay: real -> real, likes: int, comments: int)
    ensures TotalScore(Engaged(c, 3 * n, 0), affinities, now, decay) == TotalScore(Engaged(c, 0, n), affinities, now, decay)
    ensures CalculateAffinity(likes + 3 * n, comments, decay) == CalculateAffinity(likes, comments + n, decay)
  {
    assert (likes + 3 * n) as real == likes as real + 3.0 * n as real;
    assert (c.likeCount + 3 * n) as real == c.likeCount as real + 3.0 * n as real;
  }

  /** Likes and comments weigh 0.3 a like until they reach the cap of 30 points, at 100 likes' worth. */
  lemma EngagementSaturatesExactly(c: Candidate)
    ensures EngagementScore(c) == 30.0 <==> c.likeCount + 3 * c.commentCount >= 100
    ensures c.likeCount + 3 * c.commentCount <= 100 ==>
              EngagementScore(c) == 0.3 * (c.likeCount + 3 * c.commentCount) as real
  {
    assert (c.likeCount + 3 * c.commentCount) as real == c.likeCount as real + 3.0 * c.commentCount as real;
  }

  /** Pictures give five points, a text over 100 characters gives five, and neither depends on the other. */
  lemma ContentBonuses(c: Candidate, media: nat, affinities: map<Uuid, real>, now: real, decay: real -> real)
    requires TotalScore(c, affinities, now, decay).Success? && media > 0
    ensures var bare := c.(mediaCount := 0, contentLength := 0);
            var score := TotalScore(bare, affinities, now, decay).value;
            && TotalScore(bare.(mediaCount := media), affinities, now, decay) == Success(score + 5.0)
            && TotalScore(bare.(contentLength := 100), affinities, now, decay) == Success(score)
            && TotalScore(bare.(contentLength := 101), affinities, now, decay) == Success(score + 5.0)
            && TotalScore(bare.(mediaCount := media, contentLength := 101), affinities, now, decay) == Success(score + 10.0)
  {
  }

  /** Each hundredth of affinity to its author gives a post a fifth of a point; an author not asked about counts as one tenth. */
  lemma AffinityLifts(c: Candidate, affinities: map<Uuid, real>, affinity: real, other: real, now: real, decay: real -> real)
    requires TotalScore(c, affinities, now, decay).Success?
    ensures var score := TotalScore(c, affinities[c.author := affinity], now, decay).value;
            && TotalScore(c, affinities[c.author := other], now, decay) == Success(score + 20.0 * (other - affinity))
            && TotalScore(c, affinities - {c.author}, now, decay) == Success(score + 20.0 * (0.1 - affinity))
  {
  }

  /** A post of now has the full forty points of recency, and one a day old what the decay leaves at one. */
  lemma RecencyByTheDay(c: Candidate, affinities: map<Uuid, real>, now: real, days: nat, decay: real -> real)
    ensures var still := c.(createdAt := None);
            var rest := TotalScore(still, affinities, now, decay);
            && rest.Success?
            && TotalScore(PostedAt(c, now - days as real * 86400.0), affinities, now, decay) ==
                 Success(rest.value + 40.0 * decay(days as real))
  {
    var hours := (now - (now - days as real * 86400.0)) / 3600.0;
    assert hours == days as real * 24.0;
    assert RealMax(hours, 0.0) / 24.0 == days as real;
  }

  /** Fifty likes bring the affinity to what one unit of decay leaves. */
  lemma AffinityAtFifty(decay: real -> real)
    requires DecaysWithinUnit(decay)
    ensures CalculateAffinity(50, 0, decay) == 1.0 - decay(1.0)
    ensures CalculateAffinity(0, 0, decay) == 0.0
  {
    assert 50.0 * 1.0 + 0.0 * 3.0 == 50.0 && 50.0 / 50.0 == 1.0;
    assert 0.0 <= decay(1.0) <= 1.0;
  }

  /** More interaction with an author never lowers the affinity. */
  lemma InteractionRaisesAffinity(likes: nat, comments: nat, moreLikes: nat, moreComments: nat, decay: real -> real)
    requires Decreases(decay) && DecaysWithinUnit(decay)
    ensures CalculateAffinity(likes, comments, decay) <= CalculateAffinity(likes + moreLikes, comments + moreComments, decay)
  {
    var x, y := likes as real * 1.0 + comments as real * 3.0, (likes + moreLikes) as real * 1.0 + (comments + moreComments) as real * 3.0;
    AffinityWithinUnit(likes + moreLikes, comments + moreComments, decay);
    if x > 0.0 {
      assert 0.0 <= x / 50.0 <= y / 50.0;
      assert decay(x / 50.0) >= decay(y / 50.0);
    }
  }

  // ---------- sort(key=score, reverse=True) ----------

  /** In a stable descending sort the higher score goes first, and of equals the one that stood first. */
  predicate Before(scores: seq<real>, i: nat, j: nat) {
    i < |scores| && j < |scores| && (scores[i] > scores[j] || (scores[i] == scores[j] && i < j))
  }

  function InsertIndex(scores: seq<real>, order: seq<nat>, i: nat): seq<nat>
    requires i < |scores| && forall a | 0 <= a < |order| :: order[a] < |scores|
  {
    if order == [] then [i]
    else if scores[order[0]] < scores[i] then [i] + order
    else [order[0]] + InsertIndex(scores, order[1..], i)
  }

  /** The first n positions of the list in sorted order. */
  function SortedIndices(scores: seq<real>, n: nat): (order: seq<nat>)
    requires n <= |scores|
    ensures forall a | 0 <= a < |order| :: order[a] < n
    ensures IsStableOrder(scores, order, n)
  {
    if n == 0 then [] else
      var before := SortedIndices(scores, n - 1);
      InsertKeepsOrder(scores, before, n - 1);
      var order := InsertIndex(scores, before, n - 1);
      assert forall a | 0 <= a < |order| :: order[a] in order;
      order
  }

  /** Every position once, in strictly sorted order. */
  predicate IsStableOrder(scores: seq<real>, order: seq<nat>, n: nat) {
    && |order| == n
    && (forall i | 0 <= i < n :: i in order)
    && (forall a, b | 0 <= a < b < |order| :: Before(scores, order[a], order[b]))
  }

  lemma {:induction false} InsertKeepsOrder(scores: seq<real>, order: seq<nat>, i: nat)
    requires i < |scores| && forall a | 0 <= a < |order| :: order[a] < i
    requires forall a, b | 0 <= a < b < |order| :: Before(scores, order[a], order[b])
    ensures |InsertIndex(scores, order, i)| == |order| + 1
    ensures forall k :: k in InsertIndex(scores, order, i) <==> k == i || k in order
    ensures var r := InsertIndex(scores, order, i); forall a, b | 0 <= a < b < |r| :: Before(scores, r[a], r[b])
  {
    if order != [] {
      assert order == [order[0]] + order[1..];
      if scores[order[0]] < scores[i] {
        assert forall a | 0 <= a < |order| :: Before(scores, i, order[a]);
      } else {
        InsertKeepsOrder(scores, order[1..], i);
        var rest := InsertIndex(scores, order[1..], i);
        forall b | 0 <= b < |rest| ensures Before(scores, order[0], rest[b]) {
          assert rest[b] in rest;
          if rest[b] != i {
            var a :| 0 <= a < |order[1..]| && order[1..][a] == rest[b];
            assert Before(scores, order[0], order[a + 1]);
          }
        }
      }
    }
  }

  /** The positions that a stable sort puts ahead of i. */
  function Ahead(scores: seq<real>, i: nat): set<nat> {
    set j | 0 <= j < |scores| && Before(scores, j, i)
  }

  /** Of equal scores the one that stood first comes first. */
  lemma EqualsKeepTheirOrder(scores: seq<real>, a: nat, b: nat)
    requires a < b < |SortedIndices(scores, |scores|)|
    ensures var order := SortedIndices(scores, |scores|);
            && order[a] < |scores| && order[b] < |scores|
            && scores[order[a]] >= scores[order[b]]
            && (scores[order[a]] == scores[order[b]] ==> order[a] < order[b])
  {
    assert Before(scores, SortedIndices(scores, |scores|)[a], SortedIndices(scores, |scores|)[b]);
  }

  lemma {:induction false} DistinctSize(order: seq<nat>)
    requires forall a, b | 0 <= a < b < |order| :: order[a] != order[b]
    ensures |SetOf(order)| == |order|
  {
    if order != [] {
      var init, last := order[..|order| - 1], order[|order| - 1];
      DistinctSize(init);
      assert order == init + [last];
      assert last !in init;
      assert SetOf(order) == SetOf(init) + {last};
    }
  }

  /** Where a stable descending sort puts an element: behind exactly those of higher score and the earlier equals. */
  lemma SortedPosition(scores: seq<real>, k: nat)
    requires k < |scores|
    ensures var order := SortedIndices(scores, |scores|);
            |order| == |scores| && k == |Ahead(scores, order[k])|
  {
    var order := SortedIndices(scores, |scores|);
    var i := order[k];
    forall j ensures j in Ahead(scores, i) <==> j in order[..k] {
      if j in Ahead(scores, i) {
        assert j in order;
        var a :| 0 <= a < |order| && order[a] == j;
        assert a < k;
        assert order[..k][a] == j;
      }
    }
    assert Ahead(scores, i) == SetOf(order[..k]);
    DistinctSize(order[..k]);
  }

  /** Raising one score never moves its owner back. */
  lemma RaisedNeverFallsBack(scores: seq<real>, raised: real, i: nat, k: nat, l: nat)
    requires i < |scores| && raised >= scores[i] && k < |scores| && l < |scores|
    requires SortedIndices(scores, |scores|)[k] == i
    requires SortedIndices(scores[i := raised], |scores|)[l] == i
    ensures l <= k
  {
    SortedPosition(scores, k);
    SortedPosition(scores[i := raised], l);
    var after := scores[i := raised];
    forall j | j in Ahead(after, i) ensures j in Ahead(scores, i) {
      assert j != i && after[j] == scores[j];
    }
    SubsetSize(Ahead(after, i), Ahead(scores, i));
  }

  // ---------- score_posts and execute_ranked ----------

  function AllScores(cs: seq<Candidate>, affinities: map<Uuid, real>, now: real, decay: real -> real)
    : (r: Result<seq<real>, ScoringError>)
    ensures r.Success? ==> |r.value| == |cs| && forall i | 0 <= i < |cs| ::
              TotalScore(cs[i], affinities, now, decay) == Success(r.value[i])
  {
    if cs == [] then Success([])
    else
      var first := TotalScore(cs[0], affinities, now, decay);
      if first.Failure? then Failure(first.error)
      else
        var rest := AllScores(cs[1..], affinities, now, decay);
        if rest.Failure? then rest else Success([first.value] + rest.value)
  }

  function Pick<T>(xs: seq<T>, order: seq<nat>): seq<T>
    requires forall a | 0 <= a < |order| :: order[a] < |xs|
  {
    seq(|order|, k requires 0 <= k < |order| => xs[order[k]])
  }

  function ScorePosts(cs: seq<Candidate>, affinities: map<Uuid, real>, now: real, decay: real -> real)
    : (r: Result<seq<Candidate>, ScoringError>)
    ensures r.Success? ==> |r.value| == |cs|
  {
    var scores := AllScores(cs, affinities, now, decay);
    if scores.Failure? then Failure(scores.error)
    else Success(Pick(cs, SortedIndices(scores.value, |cs|)))
  }

  function ExecuteRanked(cs: seq<Candidate>, affinities: map<Uuid, real>, now: real, decay: real -> real, limit: int)
    : Result<seq<Candidate>, ScoringError>
  {
    var ranked := ScorePosts(cs, affinities, now, decay);
    if ranked.Failure? then ranked else Success(ranked.value[..Min(ClampPageSize(limit), |ranked.value|)])
  }

  /** Ranking works exactly on candidates whose times, if any, carry no time zone. */
  lemma {:induction false} RankingSucceedsExactly(cs: seq<Candidate>, affinities: map<Uuid, real>, now: real, decay: real -> real, limit: int)
    ensures ExecuteRanked(cs, affinities, now, decay, limit).Success? <==>
            forall i | 0 <= i < |cs| :: cs[i].createdAt.Some? ==> !cs[i].createdAt.value.aware
  {
    if cs != [] {
      RankingSucceedsExactly(cs[1..], affinities, now, decay, limit);
      assert forall i | 1 <= i < |cs| :: cs[i] == cs[1..][i - 1];
    }
  }

  predicate DistinctIds(cs: seq<Candidate>) {
    forall i, j | 0 <= i < j < |cs| :: cs[i].id != cs[j].id
  }

  lemma RankedAt(cs: seq<Candidate>, affinities: map<Uuid, real>, now: real, decay: real -> real, k: nat)
    requires ScorePosts(cs, affinities, now, decay).Success? && k < |cs|
    ensures var order := SortedIndices(AllScores(cs, affinities, now, decay).value, |cs|);
            && |ScorePosts(cs, affinities, now, decay).value| == |order| == |cs| && order[k] < |cs|
            && ScorePosts(cs, affinities, now, decay).value[k] == cs[order[k]]
  {
  }

  lemma ServedAt(cs: seq<Candidate>, affinities: map<Uuid, real>, now: real, decay: real -> real, limit: int, k: nat)
    requires ExecuteRanked(cs, affinities, now, decay, limit).Success?
    ensures |ExecuteRanked(cs, affinities, now, decay, limit).value| == Min(ClampPageSize(limit), |cs|)
    ensures k < Min(ClampPageSize(limit), |cs|) ==>
              var order := SortedIndices(AllScores(cs, affinities, now, decay).value, |cs|);
              && |order| == |cs| && order[k] < |cs|
              && ExecuteRanked(cs, affinities, now, decay, limit).value[k] == cs[order[k]]
  {
  }

  /** The ranked feed is min(limit, candidates) of the candidates, none of them twice. */
  lemma RankedFeedIsAPart(cs: seq<Candidate>, affinities: map<Uuid, real>, now: real, decay: real -> real, limit: int)
    requires ExecuteRanked(cs, affinities, now, decay, limit).Success? && DistinctIds(cs)
    ensures var r := ExecuteRanked(cs, affinities, now, decay, limit).value;
            |r| == Min(ClampPageSize(limit), |cs|) && DistinctIds(r) && forall c | c in r :: c in cs
  {
    var scores := AllScores(cs, affinities, now, decay).value;
    var order := SortedIndices(scores, |cs|);
    forall a, b | 0 <= a < b < |order| ensures order[a] != order[b] {
      assert Before(scores, order[a], order[b]);
    }
    PickedApart(cs, order, Min(ClampPageSize(limit), |cs|));
  }

  lemma PickedApart(cs: seq<Candidate>, order: seq<nat>, n: nat)
    requires DistinctIds(cs) && n <= |order|
    requires forall a | 0 <= a < |order| :: order[a] < |cs|
    requires forall a, b | 0 <= a < b < |order| :: order[a] != order[b]
    ensures var r := Pick(cs, order)[..n]; DistinctIds(r) && forall c | c in r :: c in cs
  {
    var r := Pick(cs, order)[..n];
    forall i, j | 0 <= i < j < |r| ensures r[i].id != r[j].id {
      assert r[i] == cs[order[i]] && r[j] == cs[order[j]];
    }
  }

  predicate ScoresAtLeast(c: Candidate, d: Candidate, affinities: map<Uuid, real>, now: real, decay: real -> real) {
    var s, t := TotalScore(c, affinities, now, decay), TotalScore(d, affinities, now, decay);
    s.Success? && t.Success? && s.value >= t.value
  }

  /** It descends in score, and whatever is left out scores no more than anything returned. */
  lemma RankedFeedIsTheTop(cs: seq<Candidate>, affinities: map<Uuid, real>, now: real, decay: real -> real, limit: int)
    requires ExecuteRanked(cs, affinities, now, decay, limit).Success?
    ensures var r := ExecuteRanked(cs, affinities, now, decay, limit).value;
            && (forall i, j | 0 <= i < j < |r| :: ScoresAtLeast(r[i], r[j], affinities, now, decay))
            && (forall c, d | c in r && d in cs && d !in r :: ScoresAtLeast(c, d, affinities, now, decay))
  {
    var scores := AllScores(cs, affinities, now, decay).value;
    var order := SortedIndices(scores, |cs|);
    var r := ExecuteRanked(cs, affinities, now, decay, limit).value;
    ServedAt(cs, affinities, now, decay, limit, 0);
    forall i, j | 0 <= i < j < |r| ensures ScoresAtLeast(r[i], r[j], affinities, now, decay) {
      ServedAt(cs, affinities, now, decay, limit, i);
      ServedAt(cs, affinities, now, decay, limit, j);
      assert Before(scores, order[i], order[j]);
    }
    forall c, d | c in r && d in cs && d !in r ensures ScoresAtLeast(c, d, affinities, now, decay) {
      var k :| 0 <= k < |r| && r[k] == c;
      var i :| 0 <= i < |cs| && cs[i] == d;
      ServedAt(cs, affinities, now, decay, limit, k);
      LeftOutIsBehind(cs, affinities, now, decay, limit, i, k);
    }
  }

  lemma LeftOutIsBehind(cs: seq<Candidate>, affinities: map<Uuid, real>, now: real, decay: real -> real, limit: int, i: nat, k: nat)
    requires ExecuteRanked(cs, affinities, now, decay, limit).Success?
    requires i < |cs| && cs[i] !in ExecuteRanked(cs, affinities, now, decay, limit).value
    requires k < |ExecuteRanked(cs, affinities, now, decay, limit).value|
    ensures var scores := AllScores(cs, affinities, now, decay).value;
            |SortedIndices(scores, |cs|)| == |cs| && k < |cs| && Before(scores, SortedIndices(scores, |cs|)[k], i)
  {
    var r := ExecuteRanked(cs, affinities, now, decay, limit).value;
    var order := SortedIndices(AllScores(cs, affinities, now, decay).value, |cs|);
    ServedAt(cs, affinities, now, decay, limit, 0);
    assert i in order;
    var l :| 0 <= l < |order| && order[l] == i;
    ServedAt(cs, affinities, now, decay, limit, l);
    assert l >= |r|;
  }

  lemma ScoresOfChanged(cs: seq<Candidate>, i: nat, c: Candidate, affinities: map<Uuid, real>, now: real, decay: real -> real)
    requires i < |cs|
    requires AllScores(cs, affinities, now, decay).Success? && AllScores(cs[i := c], affinities, now, decay).Success?
    ensures var scores, changed := AllScores(cs, affinities, now, decay).value, AllScores(cs[i := c], affinities, now, decay).value;
            && |scores| == |changed| == |cs| && changed == scores[i := changed[i]]
            && TotalScore(c, affinities, now, decay) == Success(changed[i])
            && TotalScore(cs[i], affinities, now, decay) == Success(scores[i])
  {
  }

  /** More likes and comments on one candidate never move it later in the ranking. */
  lemma EngagementNeverMovesLater(
    cs: seq<Candidate>, affinities: map<Uuid, real>, now: real, decay: real -> real,
    i: nat, likes: nat, comments: nat, k: nat, l: nat)
    requires i < |cs| && k < |cs| && l < |cs| && DistinctIds(cs)
    ensures var before := ScorePosts(cs, affinities, now, decay);
            var after := ScorePosts(cs[i := Engaged(cs[i], likes, comments)], affinities, now, decay);
            before.Success? ==>
              && after.Success?
              && (before.value[k].id == cs[i].id && after.value[l].id == cs[i].id ==> l <= k)
  {
    var ds := cs[i := Engaged(cs[i], likes, comments)];
    if ScorePosts(cs, affinities, now, decay).Success? {
      RankingSucceedsExactly(cs, affinities, now, decay, 1);
      RankingSucceedsExactly(ds, affinities, now, decay, 1);
      var scores, raised := AllScores(cs, affinities, now, decay).value, AllScores(ds, affinities, now, decay).value;
      RankedAt(cs, affinities, now, decay, k);
      RankedAt(ds, affinities, now, decay, l);
      if cs[SortedIndices(scores, |cs|)[k]].id == cs[i].id && ds[SortedIndices(raised, |cs|)[l]].id == cs[i].id {
        EngagementOnlyRaises(cs[i], likes, comments, affinities, now, decay);
        ScoresOfChanged(cs, i, Engaged(cs[i], likes, comments), affinities, now, decay);
        RaisedNeverFallsBack(scores, raised[i], i, k, l);
      }
    }
  }

  // ---------- the candidates among all visible posts ----------

  const CANDIDATE_MULTIPLIER: nat := 3

  /** No one of `cs` is older than d; rows always have a time. */
  predicate NoneOlder(cs: seq<Candidate>, d: Candidate) {
    forall c | c in cs && c.createdAt.Some? && d.createdAt.Some? :: d.createdAt.value.at <= c.createdAt.value.at
  }

  /** ORDER BY created_at DESC LIMIT n, in whatever order the second query returns the rows. */
  predicate IsNewest(cs: seq<Candidate>, visible: seq<Candidate>, n: nat) {
    && DistinctIds(cs) && DistinctIds(visible)
    && |cs| == Min(n, |visible|)
    && (forall c | c in cs :: c in visible)
    && (forall d | d in visible && d !in cs :: NoneOlder(cs, d))
  }

  /** Everything served scores at least what any visible post that is not served does. */
  predicate IsTopOf(served: seq<Candidate>, visible: seq<Candidate>, affinities: map<Uuid, real>, now: real, decay: real -> real) {
    forall c, d | c in served && d in visible && d !in served :: ScoresAtLeast(c, d, affinities, now, decay)
  }

  /**
   Of the visible posts only the newest, three times the page, are ranked. The feed served is the top of all
   visible posts exactly if no older post scores more than a served one; its length is right in any case.
   */
  lemma RankedFeedIsTheTopOfAllExactly(
    visible: seq<Candidate>, cs: seq<Candidate>, affinities: map<Uuid, real>, now: real, decay: real -> real, limit: int)
    requires IsNewest(cs, visible, CANDIDATE_MULTIPLIER * ClampPageSize(limit))
    requires ExecuteRanked(cs, affinities, now, decay, limit).Success?
    ensures var served := ExecuteRanked(cs, affinities, now, decay, limit).value;
            && |served| == Min(ClampPageSize(limit), |visible|)
            && (IsTopOf(served, visible, affinities, now, decay) <==>
                  forall c, d | c in served && d in visible && d !in cs :: ScoresAtLeast(c, d, affinities, now, decay))
  {
    RankedFeedIsTheTop(cs, affinities, now, decay, limit);
    RankedFeedIsAPart(cs, affinities, now, decay, limit);
  }

  /** With no more visible posts than candidates it always is. */
  lemma SmallFeedsAreRankedInFull(
    visible: seq<Candidate>, cs: seq<Candidate>, affinities: map<Uuid, real>, now: real, decay: real -> real, limit: int)
    requires IsNewest(cs, visible, CANDIDATE_MULTIPLIER * ClampPageSize(limit))
    requires |visible| <= CANDIDATE_MULTIPLIER * ClampPageSize(limit)
    requires ExecuteRanked(cs, affinities, now, decay, limit).Success?
    ensures IsTopOf(ExecuteRanked(cs, affinities, now, decay, limit).value, visible, affinities, now, decay)
  {
    AllAreCandidates(visible, cs);
    RankedFeedIsTheTopOfAllExactly(visible, cs, affinities, now, decay, limit);
  }

  lemma {:induction false} DistinctMembers(cs: seq<Candidate>)
    requires DistinctIds(cs)
    ensures |SetOf(cs)| == |cs|
  {
    if cs != [] {
      var init, last := cs[..|cs| - 1], cs[|cs| - 1];
      DistinctMembers(init);
      assert cs == init + [last];
      assert last !in init;
      assert SetOf(cs) == SetOf(init) + {last};
    }
  }

  lemma AllAreCandidates(visible: seq<Candidate>, cs: seq<Candidate>)
    requires DistinctIds(cs) && DistinctIds(visible) && |cs| == |visible| && forall c | c in cs :: c in visible
    ensures forall d | d in visible :: d in cs
  {
    DistinctMembers(cs);
    DistinctMembers(visible);
    SubsetSize(SetOf(cs), SetOf(visible));
    forall d | d in visible ensures d in cs {
      assert d in SetOf(visible);
    }
  }

  function Plain(id: Uuid, likes: int, at: real): Candidate {
    Candidate(id, 0, likes, 0, 0, 0, Some(Timestamp(at, false)))
  }

  /** A well-liked post an hour old is left out of a page of one for a fresh post without likes, three fresh ones being there. */
  lemma OldFavouriteIsLeftOut(now: real, decay: real -> real)
    requires 40.0 * (decay(0.0) - decay(1.0 / 24.0)) < 30.0
    ensures var recent := [Plain(1, 0, now), Plain(2, 0, now), Plain(3, 0, now)];
            var visible := recent + [Plain(4, 100, now - 3600.0)];
            && IsNewest(recent, visible, CANDIDATE_MULTIPLIER * ClampPageSize(1))
            && ExecuteRanked(recent, map[], now, decay, 1).Success?
            && !IsTopOf(ExecuteRanked(recent, map[], now, decay, 1).value, visible, map[], now, decay)
  {
    var recent, loved := [Plain(1, 0, now), Plain(2, 0, now), Plain(3, 0, now)], Plain(4, 100, now - 3600.0);
    var visible := recent + [loved];
    assert visible[3] == loved;
    RankingSucceedsExactly(recent, map[], now, decay, 1);
    RankedFeedIsAPart(recent, map[], now, decay, 1);
    var served := ExecuteRanked(recent, map[], now, decay, 1).value;
    var c := served[0];
    assert c in served && c in recent;
    RecentScoresLess(c, loved, now, decay);
    assert loved in visible && loved !in served;
  }

  lemma RecentScoresLess(c: Candidate, loved: Candidate, now: real, decay: real -> real)
    requires 40.0 * (decay(0.0) - decay(1.0 / 24.0)) < 30.0
    requires c == Plain(c.id, 0, now) && loved == Plain(4, 100, now - 3600.0)
    ensures !ScoresAtLeast(c, loved, map[], now, decay)
  {
    assert RealMax((now - now) / 3600.0, 0.0) / 24.0 == 0.0;
    assert RealMax((now - (now - 3600.0)) / 3600.0, 0.0) / 24.0 == 1.0 / 24.0;
  }
}
