/**
 The ranked-feed cache: one sorted set per user, cut back to its 200 highest entries on each write.
 Scores are reals: the rounding of a Unix time in a double is not modelled.
 */
module FeedCache {
  import opened Common
  import opened SortedSets

  const MAX_FEED_SIZE: nat := 200
  const MAX_FAN_OUT_FRIENDS: nat := 500

  type Scores = map<Member, real>

  // ---------- one user's sorted set ----------

  /** The k highest entries: what the ZREMRANGEBYRANK of every write leaves (SortedSets.RemoveLowestLeavesTop). */
  function KeepTop(z: ZSet, k: nat): ZSet {
    if |z| <= k then z else z[|z| - k..]
  }

  function Put(z: ZSet, e: Entry): ZSet {
    KeepTop(ZAdd(z, e), MAX_FEED_SIZE)
  }

  function AddAll(z: ZSet, posts: seq<Entry>): ZSet
    decreases |posts|
  {
    if posts == [] then z else AddAll(ZAdd(z, posts[0]), posts[1..])
  }

  /** What set_ranked_feed leaves: nothing to store changes nothing, and only a long list is trimmed. */
  function Replaced(z: ZSet, posts: seq<Entry>): ZSet {
    if posts == [] then z
    else if |posts| > MAX_FEED_SIZE then KeepTop(AddAll([], posts), MAX_FEED_SIZE)
    else AddAll([], posts)
  }

  function Members(z: ZSet): (r: seq<Member>)
    ensures |r| == |z|
    ensures forall i | 0 <= i < |z| :: r[i] == z[i].member
  {
    seq(|z|, i requires 0 <= i < |z| => z[i].member)
  }

  /** get_ranked_feed: the members from the highest score down, or None for an empty answer. */
  function Ranked(z: ZSet, limit: int): Option<seq<Member>> {
    var raw := ZRevRange(z, 0, limit - 1);
    if raw == [] then None else Some(Members(raw))
  }

  // ---------- the offline meaning of a trimmed set ----------

  /** z holds exactly the scores m. */
  ghost predicate Holds(z: ZSet, m: Scores) {
    WellFormed(z) && forall e :: e in z <==> e.member in m && m[e.member] == e.score
  }

  /** z is the k highest of the scores m, by score and then member; all of m if m has at most k. */
  ghost predicate TopOf(z: ZSet, m: Scores, k: nat) {
    && WellFormed(z)
    && |z| <= k
    && (forall e | e in z :: e.member in m && m[e.member] == e.score)
    && (|z| < k ==> forall x | x in m :: Has(z, x))
    && (forall x, e | x in m && !Has(z, x) && e in z :: Below(Entry(x, m[x]), e))
  }

  lemma KeepTopParts(a: ZSet, k: nat)
    requires WellFormed(a)
    ensures WellFormed(KeepTop(a, k)) && |KeepTop(a, k)| == Min(k, |a|)
    ensures forall f | f in KeepTop(a, k) :: f in a
    ensures |a| <= k ==> KeepTop(a, k) == a
    ensures |a| > k ==> forall f | f in KeepTop(a, k) :: Below(a[0], f)
    ensures |a| == k + 1 ==> a == [a[0]] + KeepTop(a, k)
  {
  }

  lemma TrimmedIsBelow(a: ZSet, e: Entry, k: nat)
    requires WellFormed(a) && e in a && e !in KeepTop(a, k)
    ensures |a| > k
    ensures forall f | f in KeepTop(a, k) :: Below(e, f) && e.member != f.member
  {
  }

  lemma TrimOfAllIsTop(z: ZSet, m: Scores, k: nat)
    requires Holds(z, m)
    ensures TopOf(KeepTop(z, k), m, k)
  {
    var top := KeepTop(z, k);
    forall x | x in m && !Has(top, x) ensures |top| == k && forall e | e in top :: Below(Entry(x, m[x]), e) {
      assert Entry(x, m[x]) in z;
      HasEntry(top, x);
      KeepTopParts(z, k);
      TrimmedIsBelow(z, Entry(x, m[x]), k);
    }
  }

  /** Two sets that both hold the top k of the same scores are the same set. */
  lemma {:induction false} TopIsUnique(y: ZSet, z: ZSet, m: Scores, k: nat)
    requires TopOf(y, m, k) && TopOf(z, m, k)
    ensures y == z
    decreases k
  {
    EmptyTop(y, m, k);
    EmptyTop(z, m, k);
    if y != [] {
      HighestIsCommon(y, z, m, k);
      var x := y[|y| - 1].member;
      WithoutHighest(y, m, k);
      WithoutHighest(z, m, k);
      TopIsUnique(y[..|y| - 1], z[..|z| - 1], m - {x}, k - 1);
      assert y == y[..|y| - 1] + [y[|y| - 1]] && z == z[..|z| - 1] + [z[|z| - 1]];
    }
  }

  lemma EmptyTop(z: ZSet, m: Scores, k: nat)
    requires TopOf(z, m, k)
    ensures z == [] <==> k == 0 || m == map[]
  {
    LowestIsEntry(z);
    if z == [] && k > 0 {
      assert forall x | x in m :: Has(z, x);
      assert m.Keys == {};
    }
  }

  lemma HighestIsCommon(y: ZSet, z: ZSet, m: Scores, k: nat)
    requires TopOf(y, m, k) && TopOf(z, m, k) && y != [] && z != []
    ensures y[|y| - 1] == z[|z| - 1]
  {
    var a, b := y[|y| - 1], z[|z| - 1];
    assert a in y && b in z;
    BelowTotal(a, b);
    if a != b {
      AtMostHighest(y, z, m, k);
      AtMostHighest(z, y, m, k);
    }
  }

  lemma AtMostHighest(y: ZSet, z: ZSet, m: Scores, k: nat)
    requires TopOf(y, m, k) && TopOf(z, m, k) && y != [] && z != []
    ensures y[|y| - 1] == z[|z| - 1] || Below(y[|y| - 1], z[|z| - 1])
  {
    var a, b := y[|y| - 1], z[|z| - 1];
    assert a in y && b in z;
    if i :| 0 <= i < |z| && z[i].member == a.member {
      assert z[i] in z;
      assert z[i] == a;
    } else {
      assert !Has(z, a.member);
      assert Below(Entry(a.member, m[a.member]), b);
    }
  }

  lemma WithoutHighest(z: ZSet, m: Scores, k: nat)
    requires TopOf(z, m, k) && z != []
    ensures TopOf(z[..|z| - 1], m - {z[|z| - 1].member}, k - 1)
  {
    var rest, a := z[..|z| - 1], z[|z| - 1];
    assert a in z;
    assert WellFormed(rest);
    forall e | e in rest ensures e in z && e.member != a.member {}
    forall x | x != a.member ensures Has(rest, x) <==> Has(z, x) {
      ButLastHas(z, x);
    }
  }

  lemma ButLastHas(z: ZSet, x: Member)
    requires z != [] && z[|z| - 1].member != x
    ensures Has(z[..|z| - 1], x) <==> Has(z, x)
  {
  }

  // ---------- one write ----------

  /** The trimmed set stays the top k of what was written, unless a stored member was lowered below one already trimmed. */
  lemma PutKeepsTopExactly(z: ZSet, m: Scores, e: Entry, k: nat)
    requires TopOf(z, m, k) && k > 0
    ensures TopOf(KeepTop(ZAdd(z, e), k), m[e.member := e.score], k) <==>
            (Has(z, e.member) ==> forall y | y in m && !Has(z, y) :: Below(Entry(y, m[y]), e))
  {
    var a, m' := ZAdd(z, e), m[e.member := e.score];
    ZAddElements(z, e);
    if Has(z, e.member) {
      assert KeepTop(a, k) == a;
      AddedIsHeld(z, m, e);
      if y :| y in m && !Has(z, y) && !Below(Entry(y, m[y]), e) {
        HasEntry(a, y);
        HasEntry(z, y);
        assert !Has(a, y) && y != e.member && e in a;
        assert !TopOf(a, m', k);
      } else {
        forall x, f | x in m' && !Has(a, x) && f in a ensures Below(Entry(x, m'[x]), f) {
          HasEntry(a, x);
          HasEntry(z, x);
          assert e in a;
        }
        AddedIsComplete(z, m, e, k);
      }
    } else {
      PutNewKeepsTop(z, m, e, k);
    }
  }

  lemma AddedIsHeld(z: ZSet, m: Scores, e: Entry)
    requires WellFormed(z) && forall f | f in z :: f.member in m && m[f.member] == f.score
    ensures forall f | f in ZAdd(z, e) :: f.member in m[e.member := e.score] && m[e.member := e.score][f.member] == f.score
  {
    ZAddElements(z, e);
  }

  lemma AddedIsComplete(z: ZSet, m: Scores, e: Entry, k: nat)
    requires WellFormed(z) && (|z| < k ==> forall x | x in m :: Has(z, x))
    ensures |ZAdd(z, e)| < k ==> forall x | x in m[e.member := e.score] :: Has(ZAdd(z, e), x)
  {
    var a := ZAdd(z, e);
    ZAddElements(z, e);
    if |a| < k {
      forall x | x in m[e.member := e.score] ensures Has(a, x) {
        HasEntry(a, x);
        HasEntry(z, x);
        assert e in a;
      }
    }
  }

  lemma PutNewKeepsTop(z: ZSet, m: Scores, e: Entry, k: nat)
    requires TopOf(z, m, k) && k > 0 && !Has(z, e.member)
    ensures TopOf(KeepTop(ZAdd(z, e), k), m[e.member := e.score], k)
  {
    var a, m' := ZAdd(z, e), m[e.member := e.score];
    ZAddElements(z, e);
    AddedIsHeld(z, m, e);
    AddedIsComplete(z, m, e, k);
    var top := KeepTop(a, k);
    KeepTopParts(a, k);
    forall x, f | x in m' && !Has(top, x) && f in top ensures Below(Entry(x, m'[x]), f) {
      DroppedIsBelow(z, m, e, k, x, f);
    }
  }

  lemma DroppedIsBelow(z: ZSet, m: Scores, e: Entry, k: nat, x: Member, f: Entry)
    requires TopOf(z, m, k) && k > 0 && !Has(z, e.member)
    requires x in m[e.member := e.score] && !Has(KeepTop(ZAdd(z, e), k), x) && f in KeepTop(ZAdd(z, e), k)
    ensures Below(Entry(x, m[e.member := e.score][x]), f)
  {
    var a, g := ZAdd(z, e), Entry(x, m[e.member := e.score][x]);
    ZAddElements(z, e);
    KeepTopParts(a, k);
    HasEntry(KeepTop(a, k), x);
    if Has(a, x) {
      AddedIsHeld(z, m, e);
      HasEntry(a, x);
      TrimmedIsBelow(a, g, k);
    } else {
      NeverAddedIsBelow(z, m, e, k, x, f);
    }
  }

  lemma NeverAddedIsBelow(z: ZSet, m: Scores, e: Entry, k: nat, x: Member, f: Entry)
    requires TopOf(z, m, k) && k > 0 && !Has(z, e.member)
    requires x in m[e.member := e.score] && !Has(ZAdd(z, e), x) && f in KeepTop(ZAdd(z, e), k)
    ensures x in m && Below(Entry(x, m[x]), f)
  {
    var a := ZAdd(z, e);
    ZAddElements(z, e);
    KeepTopParts(a, k);
    HasEntry(a, x);
    HasEntry(z, x);
    assert e in a;
    assert x != e.member && !Has(z, x) && |a| == k + 1;
    if f == e {
      LowestIsEntry(a);
      BelowTotal(a[0], e);
      BelowTransitive(Entry(x, m[x]), a[0], e);
    }
  }

  /** Writing the same entry twice leaves what writing it once leaves. */
  lemma PutTwice(z: ZSet, e: Entry)
    requires WellFormed(z)
    ensures WellFormed(Put(z, e)) && 0 < |Put(z, e)| <= MAX_FEED_SIZE
    ensures Put(Put(z, e), e) == Put(z, e)
  {
    var a := ZAdd(z, e);
    ZAddElements(z, e);
    KeepTopParts(a, MAX_FEED_SIZE);
    var t := Put(z, e);
    ZAddElements(t, e);
    KeepTopParts(ZAdd(t, e), MAX_FEED_SIZE);
    if e in t {
      assert OnlyEntry(t, e);
      SameEntries(ZAdd(t, e), t);
    } else {
      TrimmedIsLower(a, e, MAX_FEED_SIZE);
      SameEntries(ZAdd(t, e), [e] + t);
    }
  }

  predicate OnlyEntry(z: ZSet, e: Entry) {
    forall f | f in z && f.member == e.member :: f == e
  }

  lemma TrimmedIsLower(a: ZSet, e: Entry, k: nat)
    requires WellFormed(a) && e in a && e !in KeepTop(a, k)
    ensures |KeepTop(a, k)| == k && WellFormed([e] + KeepTop(a, k)) && !Has(KeepTop(a, k), e.member)
  {
  }

  // ---------- whole runs of writes on one key ----------

  /** Remove is what remove_post_from_feeds does to the key; Drop stands for the key's expiry and for invalidate. */
  datatype Write = SetRanked(posts: seq<Entry>) | Prepend(entry: Entry) | Remove(post: string) | Drop

  /** json.loads(member).get("id"), or None where parsing fails or finds no id. */
  type IdOf = Member -> Option<string>

  /** The set without the entries whose payload is the post. */
  function Without(z: ZSet, idOf: IdOf, post: string): ZSet {
    Filter(z, m => idOf(m) == Some(post))
  }

  function Remaining(m: Scores, idOf: IdOf, post: string): Scores {
    map x | x in m && idOf(x) != Some(post) :: m[x]
  }

  function AfterWrite(z: ZSet, w: Write, idOf: IdOf): ZSet {
    match w
    case SetRanked(posts) => Replaced(z, posts)
    case Prepend(e) => Put(z, e)
    case Remove(post) => Without(z, idOf, post)
    case Drop => []
  }

  /** The set that the cache stores after the writes, trimmed at each one. */
  function Stored(writes: seq<Write>, idOf: IdOf): ZSet {
    if writes == [] then [] else AfterWrite(Stored(writes[..|writes| - 1], idOf), writes[|writes| - 1], idOf)
  }

  /** The same writes without a single trim. */
  function Untrimmed(writes: seq<Write>, idOf: IdOf): ZSet {
    if writes == [] then [] else
      var z := Untrimmed(writes[..|writes| - 1], idOf);
      match writes[|writes| - 1]
      case SetRanked(posts) => if posts == [] then z else AddAll([], posts)
      case Prepend(e) => ZAdd(z, e)
      case Remove(post) => Without(z, idOf, post)
      case Drop => []
  }

  /** The dictionary that set_ranked_feed builds: of two equal members the later score stands. */
  function Dictionary(m: Scores, posts: seq<Entry>): Scores
    decreases |posts|
  {
    if posts == [] then m else Dictionary(m[posts[0].member := posts[0].score], posts[1..])
  }

  /** The last score written for each member since the key was last set or dropped. */
  function Written(writes: seq<Write>, idOf: IdOf): Scores {
    if writes == [] then map[] else
      var m := Written(writes[..|writes| - 1], idOf);
      match writes[|writes| - 1]
      case SetRanked(posts) => if posts == [] then m else Dictionary(map[], posts)
      case Prepend(e) => m[e.member := e.score]
      case Remove(post) => Remaining(m, idOf, post)
      case Drop => map[]
  }

  /**
   Since the key was last set or dropped, no prepend gave a member a lower score than the one it was last
   written with, and each removal took nothing away or left nothing that had been trimmed before.
   */
  predicate Orderly(writes: seq<Write>, idOf: IdOf) {
    writes == [] || (
      var before, last := writes[..|writes| - 1], writes[|writes| - 1];
      match last
      case SetRanked(posts) => posts == [] ==> Orderly(before, idOf)
      case Prepend(e) =>
        Orderly(before, idOf) && (e.member in Written(before, idOf) ==> Written(before, idOf)[e.member] <= e.score)
      case Remove(post) => Orderly(before, idOf) && RemovalIsHarmless(Stored(before, idOf), Written(before, idOf), idOf, post)
      case Drop => true)
  }

  predicate RemovalIsHarmless(z: ZSet, m: Scores, idOf: IdOf, post: string) {
    Without(z, idOf, post) == z || forall x | x in Remaining(m, idOf, post) :: Has(z, x)
  }

  lemma ZAddHolds(z: ZSet, m: Scores, e: Entry)
    requires Holds(z, m)
    ensures Holds(ZAdd(z, e), m[e.member := e.score])
  {
    ZAddElements(z, e);
  }

  lemma WithoutHolds(z: ZSet, m: Scores, idOf: IdOf, post: string)
    requires Holds(z, m)
    ensures Holds(Without(z, idOf, post), Remaining(m, idOf, post))
  {
    FilterElements(z, x => idOf(x) == Some(post));
    FilterWellFormed(z, x => idOf(x) == Some(post));
  }

  lemma {:induction false} AddAllHolds(z: ZSet, m: Scores, posts: seq<Entry>)
    requires Holds(z, m)
    ensures Holds(AddAll(z, posts), Dictionary(m, posts))
    ensures |z| <= |AddAll(z, posts)| <= |z| + |posts|
    ensures posts != [] ==> AddAll(z, posts) != []
    decreases |posts|
  {
    if posts != [] {
      ZAddHolds(z, m, posts[0]);
      ZAddElements(z, posts[0]);
      AddAllHolds(ZAdd(z, posts[0]), m[posts[0].member := posts[0].score], posts[1..]);
      assert posts[0] in ZAdd(z, posts[0]);
    }
  }

  lemma ReplacedIsTop(z: ZSet, posts: seq<Entry>)
    requires posts != []
    ensures Replaced(z, posts) == KeepTop(AddAll([], posts), MAX_FEED_SIZE)
    ensures TopOf(Replaced(z, posts), Dictionary(map[], posts), MAX_FEED_SIZE)
    ensures Replaced(z, posts) != []
  {
    var all := AddAll([], posts);
    AddAllHolds([], map[], posts);
    TrimOfAllIsTop(all, Dictionary(map[], posts), MAX_FEED_SIZE);
  }

  lemma ReplacedIsStorable(z: ZSet, posts: seq<Entry>)
    requires posts != []
    ensures WellFormed(Replaced(z, posts)) && 0 < |Replaced(z, posts)| <= MAX_FEED_SIZE
  {
    ReplacedIsTop(z, posts);
  }

  lemma {:induction false} UntrimmedHoldsWritten(writes: seq<Write>, idOf: IdOf)
    ensures Holds(Untrimmed(writes, idOf), Written(writes, idOf))
  {
    if writes != [] {
      var before, last := writes[..|writes| - 1], writes[|writes| - 1];
      UntrimmedHoldsWritten(before, idOf);
      match last
      case SetRanked(posts) => if posts != [] { AddAllHolds([], map[], posts); }
      case Prepend(e) => ZAddHolds(Untrimmed(before, idOf), Written(before, idOf), e);
      case Remove(post) => WithoutHolds(Untrimmed(before, idOf), Written(before, idOf), idOf, post);
      case Drop =>
    }
  }

  /** No run of writes stores more than 200 entries or an entry twice, whatever the scores. */
  lemma {:induction false} StoredIsBounded(writes: seq<Write>, idOf: IdOf)
    ensures WellFormed(Stored(writes, idOf)) && |Stored(writes, idOf)| <= MAX_FEED_SIZE
    ensures |Stored(writes, idOf)| <= 200
  {
    if writes != [] {
      var z := Stored(writes[..|writes| - 1], idOf);
      StoredIsBounded(writes[..|writes| - 1], idOf);
      match writes[|writes| - 1]
      case SetRanked(posts) => if posts != [] { ReplacedIsTop(z, posts); }
      case Prepend(e) => PutTwice(z, e);
      case Remove(post) =>
        FilterElements(z, x => idOf(x) == Some(post));
        FilterWellFormed(z, x => idOf(x) == Some(post));
      case Drop =>
    }
  }

  /** An orderly run stores exactly the 200 highest of everything written and not removed. */
  lemma {:induction false} StoredIsTopOfWritten(writes: seq<Write>, idOf: IdOf)
    requires Orderly(writes, idOf)
    ensures TopOf(Stored(writes, idOf), Written(writes, idOf), MAX_FEED_SIZE)
  {
    if writes != [] {
      var before, last := writes[..|writes| - 1], writes[|writes| - 1];
      var z, m := Stored(before, idOf), Written(before, idOf);
      match last
      case SetRanked(posts) => if posts != [] { ReplacedIsTop(z, posts); } else { StoredIsTopOfWritten(before, idOf); }
      case Prepend(e) =>
        StoredIsTopOfWritten(before, idOf);
        PutKeepsTopExactly(z, m, e, MAX_FEED_SIZE);
        if Has(z, e.member) {
          RaisedStaysAbove(z, m, e);
        }
      case Remove(post) =>
        StoredIsTopOfWritten(before, idOf);
        RemovalKeepsTopExactly(z, m, MAX_FEED_SIZE, idOf, post);
      case Drop =>
    }
  }

  lemma RaisedStaysAbove(z: ZSet, m: Scores, e: Entry)
    requires TopOf(z, m, MAX_FEED_SIZE) && Has(z, e.member) && e.member in m && m[e.member] <= e.score
    ensures forall y | y in m && !Has(z, y) :: Below(Entry(y, m[y]), e)
  {
    HasEntry(z, e.member);
    var f :| f in z && f.member == e.member;
    forall y | y in m && !Has(z, y) ensures Below(Entry(y, m[y]), e) {
      assert Below(Entry(y, m[y]), f);
    }
  }

  /** Trimming at every write leaves what one trim after all of them would have left. */
  lemma OnlineTrimIsOfflineTrim(writes: seq<Write>, idOf: IdOf)
    requires Orderly(writes, idOf)
    ensures Stored(writes, idOf) == KeepTop(Untrimmed(writes, idOf), MAX_FEED_SIZE)
  {
    StoredIsTopOfWritten(writes, idOf);
    UntrimmedHoldsWritten(writes, idOf);
    TrimOfAllIsTop(Untrimmed(writes, idOf), Written(writes, idOf), MAX_FEED_SIZE);
    TopIsUnique(Stored(writes, idOf), KeepTop(Untrimmed(writes, idOf), MAX_FEED_SIZE), Written(writes, idOf), MAX_FEED_SIZE);
  }

  /** The exact condition on one write; see PutKeepsTopExactly and RemovalKeepsTopExactly. */
  predicate WriteKeepsTop(z: ZSet, m: Scores, w: Write, idOf: IdOf) {
    match w
    case SetRanked(_) => true
    case Prepend(e) => Has(z, e.member) ==> forall y | y in m && !Has(z, y) :: Below(Entry(y, m[y]), e)
    case Remove(post) => RemovalIsHarmless(z, m, idOf, post)
    case Drop => true
  }

  predicate EachWriteKeepsTop(writes: seq<Write>, idOf: IdOf) {
    writes == [] || (
      var before := writes[..|writes| - 1];
      EachWriteKeepsTop(before, idOf) && WriteKeepsTop(Stored(before, idOf), Written(before, idOf), writes[|writes| - 1], idOf))
  }

  ghost predicate TopThroughout(writes: seq<Write>, idOf: IdOf) {
    && (writes != [] ==> TopThroughout(writes[..|writes| - 1], idOf))
    && TopOf(Stored(writes, idOf), Written(writes, idOf), MAX_FEED_SIZE)
  }

  /** The cache holds the 200 highest after every single write of a run exactly if each write meets its own condition. */
  lemma {:induction false} TopThroughoutExactly(writes: seq<Write>, idOf: IdOf)
    ensures TopThroughout(writes, idOf) <==> EachWriteKeepsTop(writes, idOf)
  {
    if writes != [] {
      var before := writes[..|writes| - 1];
      TopThroughoutExactly(before, idOf);
      if TopThroughout(before, idOf) {
        var z, m := Stored(before, idOf), Written(before, idOf);
        match writes[|writes| - 1]
        case SetRanked(posts) => if posts != [] { ReplacedIsTop(z, posts); }
        case Prepend(e) => PutKeepsTopExactly(z, m, e, MAX_FEED_SIZE);
        case Remove(post) => RemovalKeepsTopExactly(z, m, MAX_FEED_SIZE, idOf, post);
        case Drop =>
      }
    }
  }

  // ---------- replaying a served feed ----------

  /** The scores the feed handler assigns: post i from the end gets its clock reading plus i milliseconds. */
  function ScoredForCache(posts: seq<Member>, clock: seq<real>): (r: seq<Entry>)
    requires |clock| == |posts|
    ensures |r| == |posts|
  {
    seq(|posts|, i requires 0 <= i < |posts| =>
      Entry(posts[|posts| - 1 - i], clock[i] + i as real * 0.001))
  }

  predicate NonDecreasing(clock: seq<real>) {
    forall i, j | 0 <= i < j < |clock| :: clock[i] <= clock[j]
  }

  predicate Distinct(posts: seq<Member>) {
    forall i, j | 0 <= i < j < |posts| :: posts[i] != posts[j]
  }

  /** Adding an already ascending list stores it as it is. */
  lemma {:induction false} AddAllAscending(z: ZSet, posts: seq<Entry>)
    requires WellFormed(z + posts)
    ensures AddAll(z, posts) == z + posts
    decreases |posts|
  {
    if posts == [] {
      assert z + posts == z;
    } else {
      var e := posts[0];
      var next := z + [e];
      assert z + posts == next + posts[1..];
      assert forall i | 0 <= i < |z| :: (z + posts)[i] == z[i];
      assert forall i | 0 <= i < |next| :: (z + posts)[i] == next[i];
      assert WellFormed(z) && WellFormed(next);
      ZAddElements(z, e);
      forall f ensures f in ZAdd(z, e) <==> f in next {
        assert forall i | 0 <= i < |z| :: z[i].member != next[|z|].member;
      }
      SameEntries(ZAdd(z, e), next);
      AddAllAscending(next, posts[1..]);
    }
  }

  lemma ScoredAscends(posts: seq<Member>, clock: seq<real>)
    requires |clock| == |posts| && NonDecreasing(clock) && Distinct(posts)
    ensures WellFormed(ScoredForCache(posts, clock))
  {
  }

  /** A ranked read takes min(limit, stored) posts from the top; a limit below one counts from the far end instead. */
  lemma RankedTakesFromTop(z: ZSet, limit: int)
    ensures var n := if limit >= 1 then Min(limit, |z|) else Max(0, |z| + limit);
            Ranked(z, limit) == if n == 0 then None else Some(Members(Reverse(z))[..n])
  {
    var n := if limit >= 1 then Min(limit, |z|) else Max(0, |z| + limit);
    RevRangeTakesFromTop(z, limit);
    MembersOfPrefix(Reverse(z), n);
  }

  lemma MembersOfPrefix(z: ZSet, n: nat)
    requires n <= |z|
    ensures Members(z[..n]) == Members(z)[..n]
  {
  }

  lemma SuffixReadsBack(posts: seq<Member>, clock: seq<real>, cut: nat, limit: nat)
    requires |clock| == |posts| && cut < |posts|
    ensures var top := ScoredForCache(posts, clock)[cut..];
            Members(Reverse(top))[..Min(limit, |top|)] == posts[..Min(limit, |top|)]
  {
  }

  lemma ServedIsStoredAscending(z: ZSet, posts: seq<Member>, clock: seq<real>)
    requires |clock| == |posts| && NonDecreasing(clock) && Distinct(posts) && posts != []
    ensures Replaced(z, ScoredForCache(posts, clock)) ==
            ScoredForCache(posts, clock)[Max(0, |posts| - MAX_FEED_SIZE)..]
  {
    var scored := ScoredForCache(posts, clock);
    ScoredAscends(posts, clock);
    assert [] + scored == scored;
    AddAllAscending([], scored);
    ReplacedIsTop(z, scored);
  }

  /** Reading the cache right after the handler stored a served feed gives the first posts back in served order. */
  lemma ServedOrderIsReplayed(z: ZSet, posts: seq<Member>, clock: seq<real>, limit: nat)
    requires |clock| == |posts| && NonDecreasing(clock) && Distinct(posts)
    requires posts != [] && limit >= 1
    ensures Ranked(Replaced(z, ScoredForCache(posts, clock)), limit) ==
            Some(posts[..Min(limit, Min(|posts|, MAX_FEED_SIZE))])
  {
    var top := Replaced(z, ScoredForCache(posts, clock));
    ServedIsStoredAscending(z, posts, clock);
    RankedTakesFromTop(top, limit);
    SuffixReadsBack(posts, clock, Max(0, |posts| - MAX_FEED_SIZE), limit);
  }

  /** The cached read answers with at most max(limit, 1) posts exactly when the limit is positive or too little is stored. */
  lemma UnclampedLimit(z: ZSet, limit: int)
    requires z != []
    ensures (Ranked(z, limit).None? || |Ranked(z, limit).value| <= Max(limit, 1)) <==>
            limit >= 1 || |z| + limit <= 1
  {
  }

  // ---------- every user's feed ----------

  type Feeds = map<Uuid, ZSet>

  /** Redis has no empty sorted sets: a key without entries does not exist. */
  predicate ValidFeeds(feeds: Feeds) {
    forall u | u in feeds :: WellFormed(feeds[u]) && 0 < |feeds[u]| <= MAX_FEED_SIZE
  }

  function FeedOf(feeds: Feeds, u: Uuid): ZSet {
    if u in feeds then feeds[u] else []
  }

  function Prepended(feeds: Feeds, u: Uuid, e: Entry): Feeds {
    feeds[u := Put(FeedOf(feeds, u), e)]
  }

  /** prepend_to_feed once for each target in turn. */
  function PrependEach(feeds: Feeds, targets: seq<Uuid>, e: Entry): Feeds {
    if targets == [] then feeds
    else Prepended(PrependEach(feeds, targets[..|targets| - 1], e), targets[|targets| - 1], e)
  }

  lemma PrependedKeepsValid(feeds: Feeds, u: Uuid, e: Entry)
    requires ValidFeeds(feeds)
    ensures ValidFeeds(Prepended(feeds, u, e))
  {
    PutTwice(FeedOf(feeds, u), e);
  }

  lemma {:induction false} PrependEachKeepsValid(feeds: Feeds, targets: seq<Uuid>, e: Entry)
    requires ValidFeeds(feeds)
    ensures ValidFeeds(PrependEach(feeds, targets, e))
    ensures PrependEach(feeds, targets, e).Keys == feeds.Keys + SetOf(targets)
  {
    if targets != [] {
      var rest, t := targets[..|targets| - 1], targets[|targets| - 1];
      PrependEachKeepsValid(feeds, rest, e);
      PrependedKeepsValid(PrependEach(feeds, rest, e), t, e);
      assert targets == rest + [t];
    }
  }

  /** Who the targets are decides the outcome; their order and repetitions do not. */
  lemma {:induction false} PrependEachIsPerTarget(feeds: Feeds, targets: seq<Uuid>, e: Entry, u: Uuid)
    requires ValidFeeds(feeds)
    ensures FeedOf(PrependEach(feeds, targets, e), u) ==
            if u in targets then Put(FeedOf(feeds, u), e) else FeedOf(feeds, u)
  {
    if targets != [] {
      var rest, t := targets[..|targets| - 1], targets[|targets| - 1];
      PrependEachIsPerTarget(feeds, rest, e, u);
      assert targets == rest + [t];
      if u == t { PutTwice(FeedOf(feeds, u), e); }
    }
  }

  lemma FanOutOrderIsIrrelevant(feeds: Feeds, targets: seq<Uuid>, others: seq<Uuid>, e: Entry)
    requires ValidFeeds(feeds) && forall u :: u in targets <==> u in others
    ensures PrependEach(feeds, targets, e) == PrependEach(feeds, others, e)
  {
    PrependEachKeepsValid(feeds, targets, e);
    PrependEachKeepsValid(feeds, others, e);
    var a, b := PrependEach(feeds, targets, e), PrependEach(feeds, others, e);
    assert a.Keys == b.Keys;
    forall u | u in a ensures a[u] == b[u] {
      PrependEachIsPerTarget(feeds, targets, e, u);
      PrependEachIsPerTarget(feeds, others, e, u);
      assert FeedOf(a, u) == FeedOf(b, u);
    }
  }

  // ---------- removing a post everywhere ----------

  /** The feeds once the keys in `swept` have been visited. */
  function Swept(feeds: Feeds, swept: set<Uuid>, idOf: IdOf, post: string): Feeds {
    map u | u in feeds && (u in swept ==> Without(feeds[u], idOf, post) != []) ::
      if u in swept then Without(feeds[u], idOf, post) else feeds[u]
  }

  /** After the sweep no feed holds the post, every other entry is where it was, and the rest of the cache is untouched. */
  lemma SweepRemovesExactlyThePost(feeds: Feeds, idOf: IdOf, post: string)
    requires ValidFeeds(feeds)
    ensures var r := Swept(feeds, feeds.Keys, idOf, post);
            && ValidFeeds(r)
            && forall u, e :: e in FeedOf(r, u) <==> e in FeedOf(feeds, u) && idOf(e.member) != Some(post)
  {
    var r := Swept(feeds, feeds.Keys, idOf, post);
    forall u | u in feeds
      ensures WellFormed(Without(feeds[u], idOf, post)) && |Without(feeds[u], idOf, post)| <= MAX_FEED_SIZE
      ensures forall e :: e in FeedOf(r, u) <==> e in feeds[u] && idOf(e.member) != Some(post)
    {
      FilterElements(feeds[u], m => idOf(m) == Some(post));
      FilterWellFormed(feeds[u], m => idOf(m) == Some(post));
    }
  }

  /** The texts are compared as they stand: a sweep for a text that is no payload's id removes nothing, whatever id it spells. */
  lemma SweepOfAnotherTextRemovesNothing(feeds: Feeds, idOf: IdOf, text: string)
    requires ValidFeeds(feeds) && forall u, e | u in feeds && e in feeds[u] :: idOf(e.member) != Some(text)
    ensures Swept(feeds, feeds.Keys, idOf, text) == feeds
  {
    forall u | u in feeds ensures Without(feeds[u], idOf, text) == feeds[u] {
      FilterElements(feeds[u], m => idOf(m) == Some(text));
    }
  }

  /** A removal leaves the top of what was written, less the post, unless it makes room and another post had been trimmed. */
  lemma RemovalKeepsTopExactly(z: ZSet, m: Scores, k: nat, idOf: IdOf, post: string)
    requires TopOf(z, m, k)
    ensures TopOf(Without(z, idOf, post), Remaining(m, idOf, post), k) <==> RemovalIsHarmless(z, m, idOf, post)
  {
    var kept, rest := Without(z, idOf, post), Remaining(m, idOf, post);
    FilterElements(z, x => idOf(x) == Some(post));
    FilterWellFormed(z, x => idOf(x) == Some(post));
    FilterShortens(z, x => idOf(x) == Some(post));
    forall x | x in rest ensures Has(kept, x) <==> Has(z, x) {
      HasEntry(kept, x);
      HasEntry(z, x);
    }
    forall e | e in kept ensures e.member in rest && rest[e.member] == e.score {}
  }

  lemma {:induction false} FilterShortens(z: ZSet, drop: Member -> bool)
    ensures Filter(z, drop) == z || |Filter(z, drop)| < |z|
  {
    if z != [] {
      FilterElements(z[1..], drop);
      FilterShortens(z[1..], drop);
      assert z == [z[0]] + z[1..];
    }
  }

  lemma {:induction false} FilterAgrees(z: ZSet, p: Member -> bool, q: Member -> bool)
    requires forall e | e in z :: p(e.member) == q(e.member)
    ensures Filter(z, p) == Filter(z, q)
  {
    if z != [] {
      FilterAgrees(z[1..], p, q);
    }
  }

  // ---------- the cache object ----------

  /** The command that trims a key. */
  method Trim(z: ZSet) returns (t: ZSet)
    ensures t == KeepTop(z, MAX_FEED_SIZE)
  {
    RemoveLowestLeavesTop(z, MAX_FEED_SIZE);
    t := ZRemRangeByRank(z, 0, -(MAX_FEED_SIZE + 1));
  }

  /** ZADD of the dictionary of a ranked feed to a key that was just deleted. */
  method ZAddMapping(posts: seq<Entry>) returns (z: ZSet)
    ensures z == AddAll([], posts)
  {
    z := [];
    var i := 0;
    while i < |posts|
      invariant 0 <= i <= |posts|
      invariant AddAll(z, posts[i..]) == AddAll([], posts)
    {
      z := ZAdd(z, posts[i]);
      assert posts[i..][1..] == posts[i + 1..];
      i := i + 1;
    }
  }

  class RankedFeedCache {
    var feeds: Feeds

    ghost predicate Valid()
      reads this
    {
      ValidFeeds(feeds)
    }

    constructor ()
      ensures Valid() && feeds == map[]
    {
      feeds := map[];
    }

    method GetRankedFeed(user: Uuid, limit: int) returns (posts: Option<seq<Member>>)
      requires Valid()
      ensures posts == Ranked(FeedOf(feeds, user), limit)
      ensures limit >= 1 ==>
                var z := FeedOf(feeds, user);
                && (posts.None? <==> user !in feeds)
                && (posts.Some? ==>
                      && |posts.value| == Min(limit, |z|)
                      && forall i | 0 <= i < |posts.value| :: posts.value[i] == z[|z| - 1 - i].member)
    {
      RankedTakesFromTop(FeedOf(feeds, user), limit);
      var raw := ZRevRange(if user in feeds then feeds[user] else [], 0, limit - 1);
      if raw == [] {
        return None;
      }
      return Some(Members(raw));
    }

    method SetRankedFeed(user: Uuid, posts: seq<Entry>)
      requires Valid()
      modifies this
      ensures Valid()
      ensures feeds == if posts == [] then old(feeds) else old(feeds)[user := Replaced(FeedOf(old(feeds), user), posts)]
    {
      if posts == [] {
        return;
      }
      ghost var replaced := Replaced(FeedOf(feeds, user), posts);
      ReplacedIsStorable(FeedOf(feeds, user), posts);
      feeds := feeds - {user};
      var added := ZAddMapping(posts);
      if |posts| > MAX_FEED_SIZE {
        added := Trim(added);
      }
      assert added == replaced;
      feeds := feeds[user := added];
      assert feeds == old(feeds)[user := replaced];
    }

    method PrependToFeed(user: Uuid, entry: Entry)
      requires Valid()
      modifies this
      ensures Valid()
      ensures feeds == Prepended(old(feeds), user, entry)
    {
      var z := if user in feeds then feeds[user] else [];
      PutTwice(z, entry);
      z := ZAdd(z, entry);
      z := Trim(z);
      feeds := feeds[user := z];
    }

    method BatchPrependToFeeds(users: seq<Uuid>, entry: Entry)
      requires Valid()
      modifies this
      ensures Valid() && feeds == PrependEach(old(feeds), users, entry)
    {
      var i := 0;
      while i < |users|
        invariant 0 <= i <= |users|
        invariant Valid() && feeds == PrependEach(old(feeds), users[..i], entry)
      {
        assert users[..i + 1][..i] == users[..i];
        PrependToFeed(users[i], entry);
        i := i + 1;
      }
      assert users[..i] == users;
    }

    /** fan_out_new_post: the author's own feed always gets the post, the friends' feeds only up to the cap. */
    method FanOutNewPost(author: Uuid, friends: seq<Uuid>, entry: Entry)
      requires Valid()
      modifies this
      ensures Valid()
      ensures forall u :: FeedOf(feeds, u) ==
                          if u == author || (|friends| <= 500 && u in friends)
                          then Put(FeedOf(old(feeds), u), entry) else FeedOf(old(feeds), u)
    {
      var targets := [author];
      if |friends| <= MAX_FAN_OUT_FRIENDS {
        targets := targets + friends;
      }
      forall u ensures FeedOf(PrependEach(feeds, targets, entry), u) ==
                       if u in targets then Put(FeedOf(feeds, u), entry) else FeedOf(feeds, u) {
        PrependEachIsPerTarget(feeds, targets, entry, u);
      }
      BatchPrependToFeeds(targets, entry);
    }

    /**
     remove_post_from_feeds. `scan` is what the SCAN calls return, batch by batch: SCAN promises every
     key that exists throughout at least once, may repeat keys, and promises no order.
     */
    method RemovePostFromFeeds(post: string, idOf: IdOf, scan: seq<seq<Uuid>>)
      requires Valid()
      requires forall u | u in feeds :: exists b | 0 <= b < |scan| :: u in scan[b]
      modifies this
      ensures Valid()
      ensures feeds == Swept(old(feeds), old(feeds).Keys, idOf, post)
    {
      assert feeds == Swept(feeds, {}, idOf, post);
      ghost var swept: set<Uuid> := {};
      var b := 0;
      while b < |scan|
        invariant 0 <= b <= |scan|
        invariant feeds == Swept(old(feeds), swept, idOf, post)
        invariant forall c, u | 0 <= c < b && u in scan[c] :: u in swept
      {
        SweepMore(old(feeds), swept, SetOf(scan[b]), idOf, post);
        RemoveFromKeys(scan[b], post, idOf);
        swept := swept + SetOf(scan[b]);
        b := b + 1;
      }
      SweepRemovesExactlyThePost(old(feeds), idOf, post);
      SweepOnlyTouchesKeys(old(feeds), swept, idOf, post);
    }

    /** One batch of the scan. */
    method RemoveFromKeys(keys: seq<Uuid>, post: string, idOf: IdOf)
      requires forall u | u in feeds :: feeds[u] != []
      modifies this
      ensures feeds == Swept(old(feeds), SetOf(keys), idOf, post)
    {
      var i := 0;
      while i < |keys|
        invariant 0 <= i <= |keys|
        invariant feeds == Swept(old(feeds), SetOf(keys[..i]), idOf, post)
      {
        assert SetOf(keys[..i + 1]) == SetOf(keys[..i]) + {keys[i]};
        SweepMore(old(feeds), SetOf(keys[..i]), {keys[i]}, idOf, post);
        RemoveFromKey(keys[i], post, idOf);
        i := i + 1;
      }
      assert keys[..i] == keys;
    }

    /** The body of the scan: collect the post's entries of one key, then ZREM them together. */
    method RemoveFromKey(key: Uuid, post: string, idOf: IdOf)
      requires key in feeds ==> feeds[key] != []
      modifies this
      ensures feeds == Swept(old(feeds), {key}, idOf, post)
    {
      var items := if key in feeds then feeds[key] else [];
      var toRemove: seq<Member> := [];
      var i := 0;
      while i < |items|
        invariant 0 <= i <= |items|
        invariant forall m :: m in toRemove <==> exists j | 0 <= j < i :: items[j].member == m && idOf(m) == Some(post)
      {
        if idOf(items[i].member) == Some(post) {
          toRemove := toRemove + [items[i].member];
        }
        i := i + 1;
      }
      FilterAgrees(items, m => m in toRemove, m => idOf(m) == Some(post));
      if toRemove == [] {
        forall e | e in items ensures idOf(e.member) != Some(post) {}
        FilterElements(items, m => idOf(m) == Some(post));
        return;
      }
      var kept := Filter(items, m => m in toRemove);
      if kept == [] {
        feeds := feeds - {key};
      } else {
        feeds := feeds[key := kept];
      }
    }
  }

  lemma SweepMore(feeds: Feeds, swept: set<Uuid>, more: set<Uuid>, idOf: IdOf, post: string)
    ensures Swept(Swept(feeds, swept, idOf, post), more, idOf, post) == Swept(feeds, swept + more, idOf, post)
  {
    forall u | u in feeds ensures Without(Without(feeds[u], idOf, post), idOf, post) == Without(feeds[u], idOf, post) {
      FilterElements(feeds[u], m => idOf(m) == Some(post));
      FilterElements(Without(feeds[u], idOf, post), m => idOf(m) == Some(post));
    }
  }

  lemma SweepOnlyTouchesKeys(feeds: Feeds, swept: set<Uuid>, idOf: IdOf, post: string)
    requires feeds.Keys <= swept
    ensures Swept(feeds, swept, idOf, post) == Swept(feeds, feeds.Keys, idOf, post)
  {
  }
}
