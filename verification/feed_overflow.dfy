/** Runs on one ranked feed that end with the wrong 200 entries: a lowered score, and a removal, after more were written than are kept. */
module FeedOverflow {
  import opened Common
  import opened SortedSets
  import opened FeedCache
  import opened Text

  /** n prepends of n posts, each above the one before. */
  function Ascending(n: nat): seq<Write> {
    if n == 0 then [] else Ascending(n - 1) + [Prepend(Entry(Decimal(n - 1), (n - 1) as real))]
  }

  /** All n are written, each with its own score. */
  ghost predicate WritesNumbers(m: Scores, n: nat) {
    |m| == n && forall x | x in m :: AllDigits(x) && ValueOf(x) < n && m[x] >= 0.0
  }

  lemma {:induction false} AscendingIsOrderly(n: nat, idOf: IdOf)
    ensures Orderly(Ascending(n), idOf) && WritesNumbers(Written(Ascending(n), idOf), n)
  {
    if n > 0 {
      AscendingIsOrderly(n - 1, idOf);
      var e := Entry(Decimal(n - 1), (n - 1) as real);
      OneMoreWrite(Ascending(n - 1), Prepend(e), idOf);
      var m := Written(Ascending(n - 1), idOf);
      assert e.member !in m;
      assert |m[e.member := e.score]| == |m| + 1 by { assert m[e.member := e.score].Keys == m.Keys + {e.member}; }
    }
  }

  lemma OneMoreWrite(writes: seq<Write>, w: Write, idOf: IdOf)
    requires w.Prepend?
    ensures Written(writes + [w], idOf) == Written(writes, idOf)[w.entry.member := w.entry.score]
    ensures Stored(writes + [w], idOf) == Put(Stored(writes, idOf), w.entry)
    ensures Orderly(writes + [w], idOf) <==>
            Orderly(writes, idOf) && (w.entry.member in Written(writes, idOf) ==> Written(writes, idOf)[w.entry.member] <= w.entry.score)
  {
    assert (writes + [w])[..|writes|] == writes;
  }

  lemma OneMoreRemoval(writes: seq<Write>, post: string, idOf: IdOf)
    ensures Written(writes + [Remove(post)], idOf) == Remaining(Written(writes, idOf), idOf, post)
    ensures Stored(writes + [Remove(post)], idOf) == Without(Stored(writes, idOf), idOf, post)
  {
    assert (writes + [Remove(post)])[..|writes|] == writes;
  }

  lemma {:induction false} AtMostLength<T>(s: seq<T>)
    ensures |SetOf(s)| <= |s|
  {
    if s != [] {
      AtMostLength(s[..|s| - 1]);
      assert s == s[..|s| - 1] + [s[|s| - 1]];
      assert SetOf(s) == SetOf(s[..|s| - 1]) + {s[|s| - 1]};
    }
  }

  /** Of more than k members one is not stored, and then k are. */
  lemma SomeAreTrimmed(z: ZSet, m: Scores, k: nat) returns (y: Member)
    requires TopOf(z, m, k) && |m| > k
    ensures y in m && !Has(z, y) && |z| == k
  {
    if forall x | x in m :: Has(z, x) {
      AtMostLength(Members(z));
      forall x | x in m ensures x in SetOf(Members(z)) {
        var i :| 0 <= i < |z| && z[i].member == x;
        assert Members(z)[i] == x;
      }
      SubsetSize(m.Keys, SetOf(Members(z)));
      assert false;
    }
    y :| y in m && !Has(z, y);
  }

  /** More than 200 posts were pushed, and one that is stored is written again with a low score: the set is not the top any more. */
  lemma LoweringLosesTheTop(n: nat, idOf: IdOf) returns (e: Entry)
    requires n > MAX_FEED_SIZE
    ensures var writes := Ascending(n);
            && Orderly(writes, idOf) && Has(Stored(writes, idOf), e.member)
            && !TopOf(Stored(writes + [Prepend(e)], idOf), Written(writes + [Prepend(e)], idOf), MAX_FEED_SIZE)
            && Stored(writes + [Prepend(e)], idOf) != KeepTop(Untrimmed(writes + [Prepend(e)], idOf), MAX_FEED_SIZE)
  {
    var writes := Ascending(n);
    var z, m := Stored(writes, idOf), Written(writes, idOf);
    AscendingIsOrderly(n, idOf);
    StoredIsTopOfWritten(writes, idOf);
    var y := SomeAreTrimmed(z, m, MAX_FEED_SIZE);
    e := Entry(z[0].member, -1.0);
    assert !Below(Entry(y, m[y]), e);
    PutKeepsTopExactly(z, m, e, MAX_FEED_SIZE);
    OneMoreWrite(writes, Prepend(e), idOf);
    NotTheOfflineTop(writes + [Prepend(e)], idOf);
  }

  lemma NotTheOfflineTop(writes: seq<Write>, idOf: IdOf)
    requires !TopOf(Stored(writes, idOf), Written(writes, idOf), MAX_FEED_SIZE)
    ensures Stored(writes, idOf) != KeepTop(Untrimmed(writes, idOf), MAX_FEED_SIZE)
  {
    UntrimmedHoldsWritten(writes, idOf);
    TrimOfAllIsTop(Untrimmed(writes, idOf), Written(writes, idOf), MAX_FEED_SIZE);
  }

  /** Or one of the 200 is removed: a place is free, and the posts trimmed before do not come back for it. */
  lemma RemovalLosesTheTop(n: nat, idOf: IdOf) returns (post: string)
    requires n > MAX_FEED_SIZE
    requires forall x, y | AllDigits(x) && AllDigits(y) :: idOf(x).Some? && (idOf(x) == idOf(y) ==> x == y)
    ensures var writes := Ascending(n);
            && Orderly(writes, idOf) && (exists e | e in Stored(writes, idOf) :: idOf(e.member) == Some(post))
            && !TopOf(Stored(writes + [Remove(post)], idOf), Written(writes + [Remove(post)], idOf), MAX_FEED_SIZE)
            && Stored(writes + [Remove(post)], idOf) != KeepTop(Untrimmed(writes + [Remove(post)], idOf), MAX_FEED_SIZE)
  {
    var writes := Ascending(n);
    var z, m := Stored(writes, idOf), Written(writes, idOf);
    AscendingIsOrderly(n, idOf);
    StoredIsTopOfWritten(writes, idOf);
    var y := SomeAreTrimmed(z, m, MAX_FEED_SIZE);
    assert z[0] in z;
    post := idOf(z[0].member).value;
    assert y in Remaining(m, idOf, post);
    FilterElements(z, x => idOf(x) == Some(post));
    assert z[0] !in Without(z, idOf, post);
    RemovalKeepsTopExactly(z, m, MAX_FEED_SIZE, idOf, post);
    OneMoreRemoval(writes, post, idOf);
    NotTheOfflineTop(writes + [Remove(post)], idOf);
  }
}
