/**
 Cursor pagination by key: newest first, ties broken by id, each page one query below the last key of
 the page before. The table may change between two fetches. Both the feed and the messages of a
 conversation are paged this way; they differ in which rows are visible.
 */
module KeysetPagination {
  import opened Common

  /** The (created_at, id) of a row. A cursor is the text of one; CursorCodec shows that it reads back as itself. */
  datatype Key = Key(time: int, id: Uuid)

  predicate Less(a: Key, b: Key) {
    a.time < b.time || (a.time == b.time && a.id < b.id)
  }

  predicate StrictlyDescending(r: seq<Key>) {
    forall i, j | 0 <= i < j < |r| :: Less(r[j], r[i])
  }

  // ---------- ORDER BY created_at DESC, id DESC ----------

  predicate IsGreatest(s: set<Key>, k: Key) {
    k in s && forall l | l in s :: l == k || Less(l, k)
  }

  lemma {:induction false} Greatest(s: set<Key>) returns (k: Key)
    requires s != {}
    ensures IsGreatest(s, k)
  {
    var x :| x in s;
    if s == {x} {
      k := x;
    } else {
      var rest := s - {x};
      var l := Greatest(rest);
      k := if Less(x, l) then l else x;
      forall m | m in s ensures m == k || Less(m, k) {
        assert m == x || m in rest;
      }
    }
  }

  lemma GreatestExists(s: set<Key>)
    requires s != {}
    ensures exists k :: IsGreatest(s, k)
  {
    var k := Greatest(s);
  }

  /** All the keys of a set, greatest first. */
  ghost function Descending(s: set<Key>): (r: seq<Key>)
    ensures |r| == |s|
  {
    if s == {} then [] else
      GreatestExists(s);
      var k :| IsGreatest(s, k);
      [k] + Descending(s - {k})
  }

  /** The first of the keys in order is the greatest, and the others follow in order. */
  lemma DescendingUnfolds(s: set<Key>) returns (k: Key)
    requires s != {}
    ensures IsGreatest(s, k) && Descending(s) == [k] + Descending(s - {k})
  {
    GreatestExists(s);
    k :| IsGreatest(s, k) && Descending(s) == [k] + Descending(s - {k});
  }

  lemma {:induction false} DescendingIsSorted(s: set<Key>)
    ensures StrictlyDescending(Descending(s))
    ensures forall k :: k in Descending(s) <==> k in s
  {
    if s != {} {
      var k := DescendingUnfolds(s);
      var rest := Descending(s - {k});
      DescendingIsSorted(s - {k});
      GreatestFirst(k, rest);
    }
  }

  lemma GreatestFirst(k: Key, rest: seq<Key>)
    requires StrictlyDescending(rest) && forall l | l in rest :: Less(l, k)
    ensures StrictlyDescending([k] + rest)
  {
    forall j | 0 <= j < |rest| ensures Less(rest[j], k) {
      assert rest[j] in rest;
    }
  }

  lemma HeadIsMember(q: seq<Key>)
    ensures q == [] || q[0] in q
  {
  }

  lemma {:induction false} DescendingIsUnique(q: seq<Key>, r: seq<Key>)
    requires StrictlyDescending(q) && StrictlyDescending(r)
    requires forall k :: k in q <==> k in r
    ensures q == r
  {
    HeadIsMember(q);
    HeadIsMember(r);
    if q != [] {
      assert q[0] == r[0];
      forall k ensures k in q[1..] <==> k in r[1..] {
        SuffixBelow(q, 1, k);
        SuffixBelow(r, 1, k);
        assert k in q && k != q[0] ==> Less(k, q[0]);
      }
      DescendingIsUnique(q[1..], r[1..]);
      assert q == [q[0]] + q[1..] && r == [r[0]] + r[1..];
    }
  }

  // ---------- one page ----------

  function BelowCursor(visible: set<Key>, after: Option<Key>): set<Key> {
    set k | k in visible && (after.Some? ==> Less(k, after.value))
  }

  datatype Page = Page(
    items: seq<Key>, hasNext: bool, hasPrevious: bool,
    startCursor: Option<Key>, endCursor: Option<Key>, totalCount: nat)

  /** Where models[:stop] ends in a list of n: a negative stop counts from the end. */
  function SliceEnd(stop: int, n: nat): (e: nat)
    ensures e <= n
  {
    if stop >= 0 then Min(stop, n) else Max(0, n + stop)
  }

  /** One fetch: limit first + 1 below the cursor, the extra row only telling that there is more. */
  ghost function Fetch(visible: set<Key>, first: int, after: Option<Key>): Page
    requires first >= -1
  {
    var rows := Descending(BelowCursor(visible, after));
    var models := rows[..Min(first + 1, |rows|)];
    var items := models[..SliceEnd(first, |models|)];
    Page(items, |models| > first, after.Some?,
         if items != [] then Some(items[0]) else None,
         if items != [] then Some(items[|items| - 1]) else None,
         |visible|)
  }

  /** What lies below the n-th row is the rows after it. */
  lemma RowsBelow(visible: set<Key>, after: Option<Key>, n: nat)
    requires 0 < n <= |Descending(BelowCursor(visible, after))|
    ensures var rows := Descending(BelowCursor(visible, after));
            Descending(BelowCursor(visible, Some(rows[n - 1]))) == rows[n..]
  {
    var rows := Descending(BelowCursor(visible, after));
    var last := rows[n - 1];
    DescendingIsSorted(BelowCursor(visible, after));
    DescendingIsSorted(BelowCursor(visible, Some(last)));
    assert last in rows;
    forall k ensures k in Descending(BelowCursor(visible, Some(last))) <==> k in rows[n..] {
      SuffixBelow(rows, n, k);
      assert k in BelowCursor(visible, Some(last)) <==> k in BelowCursor(visible, after) && Less(k, last);
    }
    DescendingIsUnique(Descending(BelowCursor(visible, Some(last))), rows[n..]);
  }

  lemma FetchShape(visible: set<Key>, first: nat, after: Option<Key>)
    ensures var rows, p := Descending(BelowCursor(visible, after)), Fetch(visible, first, after);
            var n := Min(first, |rows|);
            && p.items == rows[..n] && (p.hasNext <==> first < |rows|)
            && (p.hasPrevious <==> after.Some?)
            && p.startCursor == (if n > 0 then Some(rows[0]) else None)
            && p.endCursor == (if n > 0 then Some(rows[n - 1]) else None)
  {
  }

  /** A page and what lies below its end cursor make up exactly what lay below the cursor before. */
  lemma PageAndRest(visible: set<Key>, first: nat, after: Option<Key>)
    requires first >= 1
    ensures var p := Fetch(visible, first, after);
            && |p.items| == Min(first, |BelowCursor(visible, after)|)
            && (p.hasNext ==> p.endCursor.Some?)
            && (p.hasNext <==> p.endCursor.Some? && BelowCursor(visible, p.endCursor) != {})
            && Descending(BelowCursor(visible, after)) ==
                 p.items + if p.hasNext then Descending(BelowCursor(visible, p.endCursor)) else []
  {
    var rows := Descending(BelowCursor(visible, after));
    var n := Min(first, |rows|);
    FetchShape(visible, first, after);
    assert rows == rows[..n] + rows[n..];
    if n > 0 {
      RowsBelow(visible, after, n);
      EmptyWhenNoRows(BelowCursor(visible, Some(rows[n - 1])));
    }
  }

  lemma EmptyWhenNoRows(s: set<Key>)
    ensures s == {} <==> |Descending(s)| == 0
  {
  }

  lemma SuffixBelow(rows: seq<Key>, n: nat, k: Key)
    requires StrictlyDescending(rows) && 0 < n <= |rows|
    ensures k in rows[n..] <==> k in rows && Less(k, rows[n - 1])
  {
  }

  lemma PageItems(visible: set<Key>, first: nat, after: Option<Key>)
    ensures var p := Fetch(visible, first, after);
            && StrictlyDescending(p.items)
            && (forall k | k in p.items :: k in visible && (after.Some? ==> Less(k, after.value)))
            && (p.startCursor.Some? ==> forall k | k in p.items :: k == p.startCursor.value || Less(k, p.startCursor.value))
            && (p.endCursor.Some? ==> forall k | k in p.items :: k == p.endCursor.value || Less(p.endCursor.value, k))
  {
    var rows := Descending(BelowCursor(visible, after));
    var p := Fetch(visible, first, after);
    DescendingIsSorted(BelowCursor(visible, after));
    FetchShape(visible, first, after);
    PrefixDescends(rows, Min(first, |rows|));
  }

  lemma PrefixDescends(rows: seq<Key>, n: nat)
    requires StrictlyDescending(rows) && n <= |rows|
    ensures StrictlyDescending(rows[..n])
    ensures forall k | k in rows[..n] ::
              && k in rows
              && (k == rows[0] || Less(k, rows[0]))
              && (k == rows[n - 1] || Less(rows[n - 1], k))
  {
  }

  // ---------- a whole walk ----------

  /** What a client gathers that follows the end cursor while there is a next page; tables[i] is what fetch i sees. */
  ghost function Walk(tables: seq<set<Key>>, first: nat, after: Option<Key>): seq<Key> {
    if tables == [] then [] else
      var p := Fetch(tables[0], first, after);
      p.items + if p.hasNext then Walk(tables[1..], first, p.endCursor) else []
  }

  /** How many fetches the walk makes, and whether it comes to a last page. */
  ghost function Fetches(tables: seq<set<Key>>, first: nat, after: Option<Key>): (n: nat)
    ensures n <= |tables|
  {
    if tables == [] then 0 else
      var p := Fetch(tables[0], first, after);
      1 + if p.hasNext then Fetches(tables[1..], first, p.endCursor) else 0
  }

  ghost predicate Ends(tables: seq<set<Key>>, first: nat, after: Option<Key>) {
    tables != [] && (
      var p := Fetch(tables[0], first, after);
      p.hasNext ==> Ends(tables[1..], first, p.endCursor))
  }

  /** However the table changes, a walk descends strictly and so returns no key twice. */
  lemma {:induction false} WalkDescends(tables: seq<set<Key>>, first: nat, after: Option<Key>)
    requires first >= 1
    ensures StrictlyDescending(Walk(tables, first, after))
    ensures after.Some? ==> forall k | k in Walk(tables, first, after) :: Less(k, after.value)
  {
    if tables != [] {
      var p := Fetch(tables[0], first, after);
      PageItems(tables[0], first, after);
      if p.hasNext {
        PageAndRest(tables[0], first, after);
        assert p.endCursor.value in p.items;
        WalkDescends(tables[1..], first, p.endCursor);
        DescendsAcross(p.items, Walk(tables[1..], first, p.endCursor), p.endCursor.value);
      }
    }
  }

  lemma DescendsAcross(items: seq<Key>, rest: seq<Key>, cut: Key)
    requires StrictlyDescending(items) && StrictlyDescending(rest)
    requires forall k | k in items :: k == cut || Less(cut, k)
    requires forall k | k in rest :: Less(k, cut)
    ensures StrictlyDescending(items + rest)
  {
    var all := items + rest;
    forall i, j | 0 <= i < j < |all| ensures Less(all[j], all[i]) {
      if i < |items| <= j {
        assert items[i] in items && rest[j - |items|] in rest;
      }
    }
  }

  /** Whatever a walk returns was visible at one of its fetches. */
  lemma {:induction false} WalkReturnsVisible(tables: seq<set<Key>>, first: nat, after: Option<Key>, k: Key)
    requires k in Walk(tables, first, after)
    ensures exists i | 0 <= i < Fetches(tables, first, after) :: k in tables[i]
  {
    var p := Fetch(tables[0], first, after);
    PageItems(tables[0], first, after);
    if k in p.items {
      assert k in tables[0];
    } else {
      WalkReturnsVisible(tables[1..], first, p.endCursor, k);
      var i :| 0 <= i < Fetches(tables[1..], first, p.endCursor) && k in tables[1..][i];
      assert k in tables[i + 1];
    }
  }

  /** A walk that came to its end has returned every key that was there at each of its fetches. */
  lemma {:induction false} WalkMissesNothing(tables: seq<set<Key>>, first: nat, after: Option<Key>, k: Key)
    requires first >= 1 && Ends(tables, first, after)
    requires after.Some? ==> Less(k, after.value)
    requires forall i | 0 <= i < Fetches(tables, first, after) :: k in tables[i]
    ensures k in Walk(tables, first, after)
  {
    var p := Fetch(tables[0], first, after);
    PageAndRest(tables[0], first, after);
    DescendingIsSorted(BelowCursor(tables[0], after));
    assert k in tables[0];
    assert k in Descending(BelowCursor(tables[0], after));
    if k !in p.items {
      assert p.hasNext;
      forall i | 0 <= i < Fetches(tables[1..], first, p.endCursor) ensures k in tables[1..][i] {
        assert tables[1..][i] == tables[i + 1];
      }
      DescendingIsSorted(BelowCursor(tables[0], p.endCursor));
      assert k in BelowCursor(tables[0], p.endCursor);
      WalkMissesNothing(tables[1..], first, p.endCursor, k);
    }
  }

  /** No row below the cursor comes or goes between two fetches; above it anything may. */
  ghost predicate QuietBelow(tables: seq<set<Key>>, first: nat, after: Option<Key>) {
    |tables| >= 2 ==>
      var p := Fetch(tables[0], first, after);
      p.hasNext ==>
        && BelowCursor(tables[1], p.endCursor) == BelowCursor(tables[0], p.endCursor)
        && QuietBelow(tables[1..], first, p.endCursor)
  }

  /** With nothing changing below the cursor, the pages of a walk that ended are all the rows below it, in order. */
  lemma {:induction false} QuietWalkIsTheList(tables: seq<set<Key>>, first: nat, after: Option<Key>)
    requires first >= 1 && QuietBelow(tables, first, after) && Ends(tables, first, after)
    ensures Walk(tables, first, after) == Descending(BelowCursor(tables[0], after))
  {
    var p := Fetch(tables[0], first, after);
    PageAndRest(tables[0], first, after);
    if p.hasNext {
      QuietWalkIsTheList(tables[1..], first, p.endCursor);
    }
  }

  /** The total that each page of a walk over an unchanged table announces is how many items the walk returns. */
  lemma QuietWalkReturnsTheTotal(table: set<Key>, pages: nat, first: nat)
    requires first >= 1 && pages >= PagesFor(|table|, first)
    ensures |Walk(Unchanged(table, pages), first, None)| == |table|
    ensures forall after :: Fetch(table, first, after).totalCount == |table|
  {
    var tables := Unchanged(table, pages);
    assert BelowCursor(table, None) == table;
    UnchangedIsQuiet(table, pages, first, None);
    QuietWalkEnds(tables, first, None);
    QuietWalkIsTheList(tables, first, None);
  }

  function Unchanged(table: set<Key>, pages: nat): (tables: seq<set<Key>>)
    ensures |tables| == pages && forall i | 0 <= i < pages :: tables[i] == table
  {
    seq(pages, _ => table)
  }

  lemma {:induction false} UnchangedIsQuiet(table: set<Key>, pages: nat, first: nat, after: Option<Key>)
    ensures QuietBelow(Unchanged(table, pages), first, after)
  {
    if pages >= 2 {
      assert Unchanged(table, pages)[1..] == Unchanged(table, pages - 1);
      UnchangedIsQuiet(table, pages - 1, first, Fetch(table, first, after).endCursor);
    }
  }

  /** How many pages hold the rows. */
  function PagesFor(rows: nat, first: nat): (n: nat)
    requires first >= 1
    ensures n >= 1
  {
    if rows <= first then 1 else 1 + PagesFor(rows - first, first)
  }

  /** The number of pages is rows / first rounded up, or one if there is no row. */
  lemma {:induction false} PagesForRoundsUp(rows: nat, first: nat)
    requires first >= 1
    ensures var n := PagesFor(rows, first);
            rows <= n * first && (n > 1 ==> (n - 1) * first < rows)
  {
    if rows > first {
      PagesForRoundsUp(rows - first, first);
      var m := PagesFor(rows - first, first);
      assert (m + 1) * first == m * first + first && m * first == (m - 1) * first + first;
      assert m == 1 ==> (m - 1) * first == 0;
    }
  }

  /** And it does end, after just the fetches its rows need. */
  lemma {:induction false} QuietWalkEnds(tables: seq<set<Key>>, first: nat, after: Option<Key>)
    requires first >= 1 && QuietBelow(tables, first, after) && tables != []
    requires |tables| >= PagesFor(|BelowCursor(tables[0], after)|, first)
    ensures Ends(tables, first, after)
    ensures Fetches(tables, first, after) == PagesFor(|BelowCursor(tables[0], after)|, first)
  {
    var p, rows := Fetch(tables[0], first, after), |BelowCursor(tables[0], after)|;
    HasNextExactly(tables[0], first, after);
    if rows > first {
      assert PagesFor(rows, first) == 1 + PagesFor(rows - first, first);
      QuietStep(tables, first, after);
      QuietWalkEnds(tables[1..], first, p.endCursor);
      EndsStep(tables, first, after);
    } else {
      assert !p.hasNext;
    }
  }

  lemma EndsStep(tables: seq<set<Key>>, first: nat, after: Option<Key>)
    requires tables != [] && Fetch(tables[0], first, after).hasNext
    requires Ends(tables[1..], first, Fetch(tables[0], first, after).endCursor)
    ensures Ends(tables, first, after)
    ensures Fetches(tables, first, after) == 1 + Fetches(tables[1..], first, Fetch(tables[0], first, after).endCursor)
  {
  }

  lemma QuietStep(tables: seq<set<Key>>, first: nat, after: Option<Key>)
    requires first >= 1 && QuietBelow(tables, first, after) && |tables| >= 2
    requires Fetch(tables[0], first, after).hasNext
    ensures var end := Fetch(tables[0], first, after).endCursor;
            && QuietBelow(tables[1..], first, end)
            && |BelowCursor(tables[1..][0], end)| == |BelowCursor(tables[0], after)| - first
  {
    RestIsShorter(tables[0], first, after);
  }

  lemma HasNextExactly(visible: set<Key>, first: nat, after: Option<Key>)
    ensures Fetch(visible, first, after).hasNext <==> first < |BelowCursor(visible, after)|
  {
  }

  lemma RestIsShorter(visible: set<Key>, first: nat, after: Option<Key>)
    requires first >= 1 && Fetch(visible, first, after).hasNext
    ensures |BelowCursor(visible, after)| == first + |BelowCursor(visible, Fetch(visible, first, after).endCursor)|
    ensures BelowCursor(visible, Fetch(visible, first, after).endCursor) != {}
  {
    var p := Fetch(visible, first, after);
    PageAndRest(visible, first, after);
    assert |Descending(BelowCursor(visible, after))| == |p.items| + |Descending(BelowCursor(visible, p.endCursor))|;
    EmptyWhenNoRows(BelowCursor(visible, p.endCursor));
  }

  /** The table holds the base, and all else in it lies above the base. */
  predicate OnTop(table: set<Key>, base: set<Key>) {
    base <= table && forall k, b | k in table && k !in base && b in base :: Less(b, k)
  }

  /** Rows only come, and above all of the first fetch's. */
  ghost predicate NewOnTop(tables: seq<set<Key>>, base: set<Key>) {
    forall i | 0 <= i < |tables| :: OnTop(tables[i], base)
  }

  lemma EndCursorIsInBase(table: set<Key>, base: set<Key>, first: nat, after: Option<Key>)
    requires OnTop(table, base) && (if after.Some? then after.value in base else table == base)
    ensures var end := Fetch(table, first, after).endCursor; end.Some? ==> end.value in base
  {
    PageItems(table, first, after);
    var p := Fetch(table, first, after);
    if p.endCursor.Some? {
      assert p.endCursor.value in p.items;
    }
  }

  lemma SameBelowOldRows(table: set<Key>, base: set<Key>, row: Key)
    requires OnTop(table, base) && row in base
    ensures BelowCursor(table, Some(row)) == BelowCursor(base, Some(row))
  {
  }

  lemma {:induction false} NewOnTopIsQuiet(tables: seq<set<Key>>, base: set<Key>, first: nat, after: Option<Key>)
    requires first >= 1 && tables != [] && NewOnTop(tables, base)
    requires if after.Some? then after.value in base else tables[0] == base
    ensures QuietBelow(tables, first, after)
  {
    var p := Fetch(tables[0], first, after);
    if |tables| >= 2 && p.hasNext {
      EndCursorIsInBase(tables[0], base, first, after);
      HasNextHasCursor(tables[0], first, after);
      SameBelowOldRows(tables[0], base, p.endCursor.value);
      SameBelowOldRows(tables[1], base, p.endCursor.value);
      NewOnTopIsQuiet(tables[1..], base, first, p.endCursor);
    }
  }

  lemma HasNextHasCursor(visible: set<Key>, first: nat, after: Option<Key>)
    requires first >= 1
    ensures Fetch(visible, first, after).hasNext ==> Fetch(visible, first, after).endCursor.Some?
  {
    PageAndRest(visible, first, after);
  }

  /** Rows added on top while a client walks do not disturb it: it gathers what the table held at its first fetch. */
  lemma NewRowsDoNotDisturb(tables: seq<set<Key>>, first: nat)
    requires first >= 1 && tables != [] && NewOnTop(tables, tables[0])
    requires |tables| >= PagesFor(|tables[0]|, first)
    ensures Ends(tables, first, None) && Walk(tables, first, None) == Descending(tables[0])
  {
    assert BelowCursor(tables[0], None) == tables[0];
    NewOnTopIsQuiet(tables, tables[0], first, None);
    QuietWalkEnds(tables, first, None);
    QuietWalkIsTheList(tables, first, None);
  }

  // ---------- which rows are visible ----------

  datatype PostRow = PostRow(author: Uuid, published: bool, createdAt: int)

  datatype MessageRow = MessageRow(sender: Uuid, receiver: Uuid, createdAt: int)

  function FeedKeys(posts: map<Uuid, PostRow>, authors: set<Uuid>): set<Key> {
    set id | id in posts && posts[id].author in authors && posts[id].published :: Key(posts[id].createdAt, id)
  }

  function ConversationKeys(messages: map<Uuid, MessageRow>, user: Uuid, other: Uuid): set<Key> {
    set id | id in messages && ((messages[id].sender == user && messages[id].receiver == other)
                                || (messages[id].sender == other && messages[id].receiver == user))
      :: Key(messages[id].createdAt, id)
  }

  /** created_at is set once by the database: a post seen at two fetches has one time. */
  predicate CreationTimesFixed(tables: seq<map<Uuid, PostRow>>) {
    forall i, j, id | 0 <= i < |tables| && 0 <= j < |tables| && id in tables[i] && id in tables[j] ::
      tables[i][id].createdAt == tables[j][id].createdAt
  }

  /** What each fetch sees; whom the user follows is looked up anew for every page. */
  ghost function FeedTables(tables: seq<map<Uuid, PostRow>>, authors: seq<set<Uuid>>): (r: seq<set<Key>>)
    requires |authors| == |tables|
    ensures |r| == |tables| && forall i | 0 <= i < |r| :: r[i] == FeedKeys(tables[i], authors[i])
  {
    seq(|tables|, i requires 0 <= i < |tables| => FeedKeys(tables[i], authors[i]))
  }

  /** Over posts inserted, edited and unpublished and users followed and unfollowed between fetches, the feed walk returns no post twice. */
  lemma FeedReturnsNoPostTwice(tables: seq<map<Uuid, PostRow>>, authors: seq<set<Uuid>>, first: int, after: Option<Key>)
    requires CreationTimesFixed(tables) && |authors| == |tables|
    ensures var walk := Walk(FeedTables(tables, authors), ClampPageSize(first), after);
            forall i, j | 0 <= i < j < |walk| :: walk[i].id != walk[j].id
  {
    var visible, n := FeedTables(tables, authors), ClampPageSize(first);
    var walk := Walk(visible, n, after);
    WalkDescends(visible, n, after);
    forall i, j | 0 <= i < j < |walk| ensures walk[i].id != walk[j].id {
      WalkReturnsVisible(visible, n, after, walk[i]);
      WalkReturnsVisible(visible, n, after, walk[j]);
      var a :| 0 <= a < Fetches(visible, n, after) && walk[i] in visible[a];
      var b :| 0 <= b < Fetches(visible, n, after) && walk[j] in visible[b];
      assert Less(walk[j], walk[i]);
    }
  }

  /** Whatever the walk returns was, at one of its fetches, a published post of an author followed then, with its own id and time. */
  lemma FeedReturnsOnlyMatchingPosts(tables: seq<map<Uuid, PostRow>>, authors: seq<set<Uuid>>, first: int, after: Option<Key>, k: Key)
    requires |authors| == |tables| && k in Walk(FeedTables(tables, authors), ClampPageSize(first), after)
    ensures exists i | 0 <= i < |tables| ::
              && k.id in tables[i] && tables[i][k.id].published && tables[i][k.id].author in authors[i]
              && tables[i][k.id].createdAt == k.time
  {
    var visible, n := FeedTables(tables, authors), ClampPageSize(first);
    WalkReturnsVisible(visible, n, after, k);
    var i :| 0 <= i < Fetches(visible, n, after) && k in visible[i];
    assert k in FeedKeys(tables[i], authors[i]);
  }

  /** The walk goes back in time, and among posts of one time down in their ids. */
  lemma FeedGoesBackInTime(tables: seq<map<Uuid, PostRow>>, authors: seq<set<Uuid>>, first: int, after: Option<Key>, i: nat, j: nat)
    requires |authors| == |tables| && i < j < |Walk(FeedTables(tables, authors), ClampPageSize(first), after)|
    ensures var walk := Walk(FeedTables(tables, authors), ClampPageSize(first), after);
            walk[j].time < walk[i].time || (walk[j].time == walk[i].time && walk[j].id < walk[i].id)
  {
    var visible, n := FeedTables(tables, authors), ClampPageSize(first);
    WalkDescends(visible, n, after);
    assert Less(Walk(visible, n, after)[j], Walk(visible, n, after)[i]);
  }

  /** And once it ends it has returned every post that matched, unchanged, at each fetch: exactly once. */
  lemma FeedReturnsEveryLastingPost(tables: seq<map<Uuid, PostRow>>, authors: seq<set<Uuid>>, first: int, id: Uuid)
    requires CreationTimesFixed(tables) && |authors| == |tables| && tables != []
    requires Ends(FeedTables(tables, authors), ClampPageSize(first), None)
    requires forall i | 0 <= i < |tables| :: id in tables[i] && tables[i][id].author in authors[i] && tables[i][id].published
    ensures OccursOnce(Walk(FeedTables(tables, authors), ClampPageSize(first), None), id)
  {
    var visible, n := FeedTables(tables, authors), ClampPageSize(first);
    var walk, k := Walk(visible, n, None), Key(tables[0][id].createdAt, id);
    forall i | 0 <= i < Fetches(visible, n, None) ensures k in visible[i] {
      assert tables[i][id].createdAt == tables[0][id].createdAt;
    }
    WalkMissesNothing(visible, n, None, k);
    FeedReturnsNoPostTwice(tables, authors, first, None);
    var i :| 0 <= i < |walk| && walk[i] == k;
    assert walk[i].id == id && forall j | 0 <= j < |walk| && j != i :: walk[j].id != id;
  }

  predicate OccursOnce(walk: seq<Key>, id: Uuid) {
    exists i | 0 <= i < |walk| :: walk[i].id == id && forall j | 0 <= j < |walk| && j != i :: walk[j].id != id
  }

  /** Messages are never deleted, and whatever is new sorts above all that was there at the first fetch. */
  predicate MessagesArrive(tables: seq<map<Uuid, MessageRow>>) {
    forall i | 0 <= i < |tables| ::
      && (forall id | id in tables[0] :: id in tables[i] && tables[i][id] == tables[0][id])
      && (forall id, earlier | id in tables[i] && id !in tables[0] && earlier in tables[0] ::
            Less(Key(tables[0][earlier].createdAt, earlier), Key(tables[i][id].createdAt, id)))
  }

  ghost function ConversationTables(tables: seq<map<Uuid, MessageRow>>, user: Uuid, other: Uuid): (r: seq<set<Key>>)
    ensures |r| == |tables| && forall i | 0 <= i < |r| :: r[i] == ConversationKeys(tables[i], user, other)
  {
    seq(|tables|, i requires 0 <= i < |tables| => ConversationKeys(tables[i], user, other))
  }

  /** Paging through a conversation while it goes on gives exactly its messages at the first fetch, newest first. */
  lemma ConversationReadsAsItStood(tables: seq<map<Uuid, MessageRow>>, user: Uuid, other: Uuid, first: nat)
    requires first >= 1 && tables != [] && MessagesArrive(tables)
    requires |tables| >= PagesFor(|ConversationKeys(tables[0], user, other)|, first)
    ensures Ends(ConversationTables(tables, user, other), first, None)
    ensures Walk(ConversationTables(tables, user, other), first, None) == Descending(ConversationKeys(tables[0], user, other))
  {
    var visible := ConversationTables(tables, user, other);
    forall i | 0 <= i < |visible| ensures OnTop(visible[i], visible[0]) {
      assert forall id | id in tables[0] :: tables[i][id] == tables[0][id];
      forall k: Key | k in visible[0] ensures k in visible[i] { assert k.id in tables[0]; }
      forall k: Key, b: Key | k in visible[i] && k !in visible[0] && b in visible[0] ensures Less(b, k) {
        assert k.id !in tables[0];
      }
    }
    NewRowsDoNotDisturb(visible, first);
  }

  predicate Between(m: MessageRow, user: Uuid, other: Uuid) {
    multiset{m.sender, m.receiver} == multiset{user, other}
  }

  /** What it gives are the messages between the two, all of them, each with its own id and time. */
  lemma ConversationHoldsExactly(tables: seq<map<Uuid, MessageRow>>, user: Uuid, other: Uuid, first: nat, k: Key)
    requires first >= 1 && tables != [] && MessagesArrive(tables)
    requires |tables| >= PagesFor(|ConversationKeys(tables[0], user, other)|, first)
    ensures k in Walk(ConversationTables(tables, user, other), first, None) <==>
            k.id in tables[0] && Between(tables[0][k.id], user, other) && tables[0][k.id].createdAt == k.time
  {
    ConversationReadsAsItStood(tables, user, other, first);
    DescendingIsSorted(ConversationKeys(tables[0], user, other));
    KeysOfConversation(tables[0], user, other, k);
  }

  lemma KeysOfConversation(messages: map<Uuid, MessageRow>, user: Uuid, other: Uuid, k: Key)
    ensures k in ConversationKeys(messages, user, other) <==>
            k.id in messages && Between(messages[k.id], user, other) && messages[k.id].createdAt == k.time
  {
    if k.id in messages {
      PairsAsMultisets(messages[k.id].sender, messages[k.id].receiver, user, other);
    }
  }

  lemma PairsAsMultisets(a: Uuid, b: Uuid, c: Uuid, d: Uuid)
    ensures multiset{a, b} == multiset{c, d} <==> (a == c && b == d) || (a == d && b == c)
  {
    var m := multiset{a, b};
    assert m[a] >= 1 && m[b] >= 1;
    if m == multiset{c, d} {
      assert m[c] >= 1 && m[d] >= 1;
      if a == b { assert m[a] == 2; }
      if c == d { assert m[c] == 2; }
    }
  }

  datatype QueryError = NegativeLimit

  /** The message query takes the page size as it comes; PostgreSQL refuses a negative LIMIT. */
  ghost function FetchMessages(visible: set<Key>, first: int, after: Option<Key>): Result<Page, QueryError> {
    if first + 1 < 0 then Failure(NegativeLimit) else Success(Fetch(visible, first, after))
  }

  /** A page that announces a next one comes with the cursor to it exactly for sizes from 1, or if there is nothing to page. */
  lemma NextComesWithACursorExactly(visible: set<Key>, first: int, after: Option<Key>)
    ensures FetchMessages(visible, first, after).Success? <==> first >= -1
    ensures first >= -1 ==>
              var p := FetchMessages(visible, first, after).value;
              (p.hasNext ==> p.endCursor.Some?) <==> first >= 1 || (first == 0 && BelowCursor(visible, after) == {})
  {
    EmptyWhenNoRows(BelowCursor(visible, after));
    if first >= 1 {
      PageAndRest(visible, first, after);
    }
  }

  /** At size -1 every page is empty and announces a next one, even where there are no messages at all. */
  lemma NegativePageAlwaysAnnounces(visible: set<Key>, after: Option<Key>)
    ensures var p := Fetch(visible, -1, after);
            p.items == [] && p.endCursor.None? && p.hasNext
  {
  }

  /** A message page of size zero claims a next page and gives no cursor to reach it: the client gets no further. */
  lemma ZeroPageNeverAdvances(visible: set<Key>, after: Option<Key>)
    ensures var p := Fetch(visible, 0, after);
            p.items == [] && p.endCursor.None? && (p.hasNext <==> BelowCursor(visible, after) != {})
  {
  }
}
