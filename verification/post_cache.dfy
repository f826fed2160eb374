/**
 GET /posts/{id} through the cache, and the post handlers that invalidate it. A handler runs its
 database step and then its cache step as one event; a handler whose use case fails touches neither.
 The database finds a post by its id, the cache by the text that stands in the path.
 */
module PostCache {
  import opened Common
  import opened RedisCache
  import opened PostStore
  import UuidText

  const TTL_POST: real := 120.0

  /** PostResponse, the projection of a row that is served and cached. */
  datatype PostView = PostView(
    id: Uuid, author: Uuid, text: string, image: Option<string>,
    likeCount: int, commentCount: int, published: bool, createdAt: int)

  function View(id: Uuid, p: Post): PostView {
    PostView(id, p.author, p.content, if p.mediaUrls != [] then Some(p.mediaUrls[0]) else None,
             p.likeCount, p.commentCount, p.published, p.createdAt)
  }

  /**
   How the text of an id is read (UuidText.ParseUuid is the reading of uuid.UUID), and whether the use cases
   that create, update and delete a post enter the unit of work their handler has entered before.
   */
  datatype Setup = Setup(idOf: string -> Option<Uuid>, entersAgain: bool)

  datatype World = World(db: Db, cache: Store<string, PostView>, now: real)

  /** The routes that change posts; `path` is the text of the post's id in the URL. */
  datatype Request =
    | CreateRequest(id: Uuid, author: Uuid, text: string, mediaUrls: seq<string>, createdAt: int)
    | UpdateRequest(path: string, user: Uuid, newText: Option<string>)
    | DeleteRequest(path: string, user: Uuid)
    | LikeRequest(path: string, user: Uuid)
    | UnlikeRequest(path: string, user: Uuid)
    | ReactRequest(path: string, user: Uuid, kind: ReactionType)
    | UnreactRequest(path: string, user: Uuid)
    | CommentRequest(id: Uuid, path: string, author: Uuid, text: string)
    | UncommentRequest(comment: string, user: Uuid)

  datatype Event = Handle(request: Request) | GetPost(path: string) | Wait(seconds: real)

  /** The key a handler deletes after its use case succeeded. Creating a post and the two comment handlers delete none. */
  function Invalidates(r: Request): Option<string> {
    match r
    case UpdateRequest(path, _, _) => Some(path)
    case DeleteRequest(path, _) => Some(path)
    case LikeRequest(path, _) => Some(path)
    case UnlikeRequest(path, _) => Some(path)
    case ReactRequest(path, _, _) => Some(path)
    case UnreactRequest(path, _) => Some(path)
    case CreateRequest(_, _, _, _, _) => None
    case CommentRequest(_, _, _, _) => None
    case UncommentRequest(_, _) => None
  }

  /** The use case that a handler calls, or None where the text is no id and uuid.UUID raises. */
  function CallOf(s: Setup, r: Request): Option<Call> {
    match r
    case CreateRequest(id, author, text, media, at) => Some(CreatePost(id, author, text, media, at))
    case UpdateRequest(path, u, text) => OnId(s.idOf(path), (p: Uuid) => UpdatePost(p, u, text))
    case DeleteRequest(path, u) => OnId(s.idOf(path), (p: Uuid) => DeletePost(p, u))
    case LikeRequest(path, u) => OnId(s.idOf(path), (p: Uuid) => LikePost(p, u))
    case UnlikeRequest(path, u) => OnId(s.idOf(path), (p: Uuid) => UnlikePost(p, u))
    case ReactRequest(path, u, kind) => OnId(s.idOf(path), (p: Uuid) => ReactToPost(p, u, kind))
    case UnreactRequest(path, u) => OnId(s.idOf(path), (p: Uuid) => RemoveReaction(p, u))
    case CommentRequest(id, path, author, text) => OnId(s.idOf(path), (p: Uuid) => CreateComment(id, p, author, text))
    case UncommentRequest(comment, u) => OnId(s.idOf(comment), (c: Uuid) => DeleteComment(c, u))
  }

  function OnId(id: Option<Uuid>, call: Uuid -> Call): Option<Call> {
    if id.None? then None else Some(call(id.value))
  }

  /** The database step: what a use case that enters the unit of work again writes does not last (UnitOfWork.Handle). */
  function Handled(s: Setup, db: Db, r: Request): Result<Db, PostError> {
    var c := CallOf(s, r);
    if c.None? then Failure(InvalidId)
    else if Do(db, c.value).Success? && s.entersAgain && (r.CreateRequest? || r.UpdateRequest? || r.DeleteRequest?) then Success(db)
    else Do(db, c.value)
  }

  /** What a GET answers: the live cache entry, else the row. Soft-deleted posts are served too. */
  function Served(s: Setup, w: World, path: string): Result<PostView, PostError> {
    var hit := Lookup(w.cache, path, w.now);
    if hit.Some? then Success(hit.value)
    else if s.idOf(path).None? then Failure(InvalidId)
    else
      var p := s.idOf(path).value;
      if p in w.db.posts then Success(View(p, w.db.posts[p])) else Failure(PostNotFound)
  }

  function Next(s: Setup, w: World, e: Event): World {
    match e
    case Handle(r) =>
      var handled := Handled(s, w.db, r);
      if handled.Failure? then w
      else
        var cache := if Invalidates(r).Some? then w.cache - {Invalidates(r).value} else w.cache;
        w.(db := handled.value, cache := cache)
    case GetPost(path) =>
      if Lookup(w.cache, path, w.now).Some? || s.idOf(path).None? || s.idOf(path).value !in w.db.posts then w
      else
        var p := s.idOf(path).value;
        w.(cache := w.cache[path := Cached(View(p, w.db.posts[p]), w.now + TTL_POST)])
    case Wait(seconds) => w.(now := w.now + seconds)
  }

  predicate Legal(s: Setup, w: World, e: Event) {
    match e
    case Handle(r) => CallOf(s, r).Some? ==> FreshId(w.db, CallOf(s, r).value)
    case GetPost(_) => true
    case Wait(seconds) => seconds >= 0.0
  }

  /** A run starts on any consistent database, with nothing cached. */
  predicate IsRun(s: Setup, ws: seq<World>, es: seq<Event>) {
    && |ws| == |es| + 1
    && Consistent(ws[0].db) && ws[0].cache == map[]
    && forall i | 0 <= i < |es| :: Legal(s, ws[i], es[i]) && ws[i + 1] == Next(s, ws[i], es[i])
  }

  lemma {:induction false} RunsStayConsistent(s: Setup, ws: seq<World>, es: seq<Event>, i: nat)
    requires IsRun(s, ws, es) && i < |ws|
    ensures Consistent(ws[i].db)
  {
    if i > 0 {
      RunsStayConsistent(s, ws, es, i - 1);
      if es[i - 1].Handle? && CallOf(s, es[i - 1].request).Some? {
        CallKeepsConsistent(ws[i - 1].db, CallOf(s, es[i - 1].request).value);
      }
    }
  }

  // ---------- bounded staleness, for every spelling ----------

  /** The entry under `path` in world i is what the GET at j stored, and has been there since. */
  predicate FilledAt(s: Setup, ws: seq<World>, es: seq<Event>, i: nat, path: string, j: nat)
    requires |ws| == |es| + 1 && i < |ws|
  {
    && j < i && es[j] == GetPost(path)
    && s.idOf(path).Some? && s.idOf(path).value in ws[j].db.posts
    && forall k | j < k <= i ::
         && path in ws[k].cache
         && ws[k].cache[path] == Cached(View(s.idOf(path).value, ws[j].db.posts[s.idOf(path).value]), ws[j].now + TTL_POST)
  }

  lemma {:induction false} CacheHoldsPastRows(s: Setup, ws: seq<World>, es: seq<Event>, i: nat, path: string) returns (j: nat)
    requires IsRun(s, ws, es) && i < |ws| && path in ws[i].cache
    ensures FilledAt(s, ws, es, i, path, j)
  {
    var before, e := ws[i - 1], es[i - 1];
    if path in before.cache && ws[i].cache[path] == before.cache[path] {
      j := CacheHoldsPastRows(s, ws, es, i - 1, path);
    } else {
      j := i - 1;
    }
  }

  lemma {:induction false} ClockNeverRunsBack(s: Setup, ws: seq<World>, es: seq<Event>, j: nat, i: nat)
    requires IsRun(s, ws, es) && j <= i < |ws|
    ensures ws[j].now <= ws[i].now
  {
    if j < i {
      ClockNeverRunsBack(s, ws, es, j, i - 1);
    }
  }

  /** World j is where what a GET of `path` serves in world i was read: now, or when its entry was filled. */
  predicate ReadAt(s: Setup, ws: seq<World>, es: seq<Event>, i: nat, path: string, j: nat)
    requires |ws| == |es| + 1 && i < |ws|
  {
    j == i || FilledAt(s, ws, es, i, path, j)
  }

  /** Whatever a GET serves, under whatever spelling, is the post's row as it was at some moment of the last 120 seconds. */
  lemma ServedIsRecent(s: Setup, ws: seq<World>, es: seq<Event>, i: nat, path: string) returns (j: nat)
    requires IsRun(s, ws, es) && i < |ws| && Served(s, ws[i], path).Success?
    ensures ReadAt(s, ws, es, i, path, j)
    ensures j <= i && ws[i].now - 120.0 <= ws[j].now <= ws[i].now
    ensures s.idOf(path).Some? && s.idOf(path).value in ws[j].db.posts
    ensures Served(s, ws[i], path).value == View(s.idOf(path).value, ws[j].db.posts[s.idOf(path).value])
  {
    if Lookup(ws[i].cache, path, ws[i].now).Some? {
      j := CacheHoldsPastRows(s, ws, es, i, path);
      ClockNeverRunsBack(s, ws, es, j, i);
    } else {
      j := i;
    }
  }

  // ---------- coherence with the database ----------

  /** The two views agree on all fields but commentCount. */
  predicate AgreeButComments(a: PostView, b: PostView) {
    a.(commentCount := 0) == b.(commentCount := 0)
  }

  /** Every cached post agrees with its row on all fields but commentCount. */
  predicate Coherent(s: Setup, w: World) {
    forall path | path in w.cache ::
      && s.idOf(path).Some? && s.idOf(path).value in w.db.posts
      && AgreeButComments(w.cache[path].value, View(s.idOf(path).value, w.db.posts[s.idOf(path).value]))
  }

  /** The request went through and its handler deletes a key of post p. */
  predicate WritesTo(s: Setup, db: Db, e: Event, p: Uuid) {
    && e.Handle? && Handled(s, db, e.request).Success?
    && Invalidates(e.request).Some? && s.idOf(Invalidates(e.request).value) == Some(p)
  }

  /** A step that deletes no key of a post changes at most that post's comment count. */
  lemma OtherStepsMoveCommentsOnly(s: Setup, w: World, e: Event, p: Uuid)
    requires p in w.db.posts && !WritesTo(s, w.db, e, p)
    ensures p in Next(s, w, e).db.posts
    ensures AgreeButComments(View(p, Next(s, w, e).db.posts[p]), View(p, w.db.posts[p]))
  {
    if e.Handle? && Handled(s, w.db, e.request).Success? {
      CallsElsewhereMoveCommentsOnly(w.db, CallOf(s, e.request).value, p);
    }
  }

  /** The post a call looks up and may change beyond its comment count. */
  function Touches(c: Call): Option<Uuid> {
    match c
    case UpdatePost(p, _, _) => Some(p)
    case DeletePost(p, _) => Some(p)
    case LikePost(p, _) => Some(p)
    case UnlikePost(p, _) => Some(p)
    case ReactToPost(p, _, _) => Some(p)
    case RemoveReaction(p, _) => Some(p)
    case CreatePost(_, _, _, _, _) => None
    case CreateComment(_, _, _, _) => None
    case DeleteComment(_, _) => None
  }

  lemma CallsElsewhereMoveCommentsOnly(db: Db, c: Call, p: Uuid)
    requires Do(db, c).Success? && Touches(c) != Some(p) && p in db.posts
    ensures p in After(db, c).posts
    ensures AgreeButComments(View(p, After(db, c).posts[p]), View(p, db.posts[p]))
  {
  }

  /** No other spelling of the post that e writes to is cached. */
  predicate OtherSpellingsAbsent(s: Setup, w: World, e: Event) {
    e.Handle? && Invalidates(e.request).Some? ==>
      forall path | path in w.cache && s.idOf(path) == s.idOf(Invalidates(e.request).value) ::
        path == Invalidates(e.request).value
  }

  lemma NextKeepsCoherent(s: Setup, w: World, e: Event)
    requires Coherent(s, w) && OtherSpellingsAbsent(s, w, e)
    ensures Coherent(s, Next(s, w, e))
  {
    forall path | path in Next(s, w, e).cache && path in w.cache && Next(s, w, e).cache[path] == w.cache[path]
      ensures s.idOf(path).value in Next(s, w, e).db.posts
      ensures AgreeButComments(Next(s, w, e).cache[path].value,
                               View(s.idOf(path).value, Next(s, w, e).db.posts[s.idOf(path).value]))
    {
      OtherStepsMoveCommentsOnly(s, w, e, s.idOf(path).value);
    }
  }

  /** No two of the texts that are read as ids name the same post. */
  ghost predicate OneSpellingEach(s: Setup, texts: iset<string>) {
    forall a, b | a in texts && b in texts && s.idOf(a).Some? && s.idOf(a) == s.idOf(b) :: a == b
  }

  /** The texts that stand for posts in the paths of the run. */
  predicate PathsAmong(es: seq<Event>, texts: iset<string>) {
    forall i | 0 <= i < |es| ::
      && (es[i].GetPost? ==> es[i].path in texts)
      && (es[i].Handle? && Invalidates(es[i].request).Some? ==> Invalidates(es[i].request).value in texts)
  }

  lemma {:induction false} RunsStayCoherent(s: Setup, ws: seq<World>, es: seq<Event>, i: nat, texts: iset<string>)
    requires IsRun(s, ws, es) && i < |ws| && PathsAmong(es, texts) && OneSpellingEach(s, texts)
    ensures Coherent(s, ws[i]) && forall path | path in ws[i].cache :: path in texts
  {
    if i > 0 {
      RunsStayCoherent(s, ws, es, i - 1, texts);
      NextKeepsCoherent(s, ws[i - 1], es[i - 1]);
    }
  }

  /** With two spellings of one post, a like through one leaves the other's entry behind in its like count. */
  lemma LikeLeavesOtherSpellingStale(s: Setup, w: World, a: string, b: string, user: Uuid)
    requires s.idOf(a).Some? && s.idOf(a) == s.idOf(b) && a != b
    requires s.idOf(a).value in w.db.posts && (s.idOf(a).value, user) !in w.db.likes
    requires Lookup(w.cache, a, w.now).None?
    ensures var p, after := s.idOf(a).value, Next(s, Next(s, w, GetPost(a)), Handle(LikeRequest(b, user)));
            && p in after.db.posts && Served(s, after, a).Success?
            && Served(s, after, a).value.likeCount == after.db.posts[p].likeCount - 1
            && Served(s, after, a).value.commentCount == after.db.posts[p].commentCount
            && !Coherent(s, after)
  {
    var after := Next(s, Next(s, w, GetPost(a)), Handle(LikeRequest(b, user)));
    assert a in after.cache;
  }

  /**
   Likewise an edit or a deletion: the other spelling goes on showing what it did. That is the row no more exactly
   if the write lasts and changes something.
   */
  lemma EditLeavesOtherSpellingStale(s: Setup, w: World, a: string, b: string, text: string)
    requires s.idOf(a).Some? && s.idOf(a) == s.idOf(b) && a != b
    requires s.idOf(a).value in w.db.posts && Lookup(w.cache, a, w.now).None?
    ensures var p, read := s.idOf(a).value, Next(s, w, GetPost(a));
            var user := w.db.posts[p].author;
            var edited, deleted := Next(s, read, Handle(UpdateRequest(b, user, Some(text)))), Next(s, read, Handle(DeleteRequest(b, user)));
            && p in edited.db.posts && p in deleted.db.posts
            && (!s.entersAgain && ValidPostContent(text) ==> edited.db.posts[p].content == text)
            && (!s.entersAgain ==> !deleted.db.posts[p].published)
            && Served(s, edited, a) == Success(View(p, w.db.posts[p])) == Served(s, deleted, a)
            && (Served(s, edited, a) != Success(View(p, edited.db.posts[p])) <==>
                  !s.entersAgain && ValidPostContent(text) && text != w.db.posts[p].content)
            && (Served(s, deleted, a) != Success(View(p, deleted.db.posts[p])) <==>
                  !s.entersAgain && w.db.posts[p].published)
  {
  }

  ghost predicate EveryRunStaysCoherent(s: Setup, texts: iset<string>) {
    forall ws, es, i | IsRun(s, ws, es) && PathsAmong(es, texts) && 0 <= i < |ws| :: Coherent(s, ws[i])
  }

  lemma TwoSpellingsBreakARun(s: Setup, a: string, b: string) returns (ws: seq<World>, es: seq<Event>)
    requires s.idOf(a).Some? && s.idOf(a) == s.idOf(b) && a != b
    ensures IsRun(s, ws, es) && PathsAmong(es, iset{a, b}) && |ws| == 3 && !Coherent(s, ws[2])
  {
    var p := s.idOf(a).value;
    var db := EMPTY.(posts := map[p := Post(0, "x", [], 0, 0, true, 0)]);
    assert LikesOf(db, p) == {} && ReactionsOf(db, p) == {} && CommentsOf(db, p) == {};
    var w := World(db, map[], 0.0);
    es := [GetPost(a), Handle(LikeRequest(b, 0))];
    ws := [w, Next(s, w, es[0]), Next(s, Next(s, w, es[0]), es[1])];
    LikeLeavesOtherSpellingStale(s, w, a, b, 0);
  }

  /** All runs whose paths are among the texts keep the cache coherent exactly if no two of them spell one id. */
  lemma CoherentExactly(s: Setup, texts: iset<string>)
    ensures EveryRunStaysCoherent(s, texts) <==> OneSpellingEach(s, texts)
  {
    if OneSpellingEach(s, texts) {
      forall ws, es, i | IsRun(s, ws, es) && PathsAmong(es, texts) && 0 <= i < |ws| ensures Coherent(s, ws[i]) {
        RunsStayCoherent(s, ws, es, i, texts);
      }
    } else {
      var a, b :| a in texts && b in texts && s.idOf(a).Some? && s.idOf(a) == s.idOf(b) && a != b;
      var ws, es := TwoSpellingsBreakARun(s, a, b);
      assert PathsAmong(es, texts);
    }
  }

  /** The text that every response of the service writes an id in. */
  ghost predicate IsCanonical(text: string) {
    exists id: Uuid | id < UuidText.Pow16(UuidText.DIGITS) :: text == UuidText.Canonical(id)
  }

  /** With the ids read as uuid.UUID reads them: clients that use ids as they got them keep every run coherent. */
  lemma CanonicalTextsStayCoherent(entersAgain: bool)
    ensures EveryRunStaysCoherent(Setup(UuidText.ParseUuid, entersAgain), iset text | IsCanonical(text))
  {
    var s, texts := Setup(UuidText.ParseUuid, entersAgain), iset text | IsCanonical(text);
    forall a, b | a in texts && b in texts && s.idOf(a).Some? && s.idOf(a) == s.idOf(b) ensures a == b {
      var m: Uuid :| m < UuidText.Pow16(UuidText.DIGITS) && a == UuidText.Canonical(m);
      var n: Uuid :| n < UuidText.Pow16(UuidText.DIGITS) && b == UuidText.Canonical(n);
      UuidText.CanonicalReadsBack(m);
      UuidText.CanonicalReadsBack(n);
    }
    CoherentExactly(s, texts);
  }

  /** Over all texts that are read as ids they do not: an id without its hyphens is the same id and another key. */
  lemma OtherTextsDoNot(entersAgain: bool)
    ensures !EveryRunStaysCoherent(Setup(UuidText.ParseUuid, entersAgain), iset text | UuidText.ParseUuid(text).Some?)
  {
    var s, texts := Setup(UuidText.ParseUuid, entersAgain), iset text | UuidText.ParseUuid(text).Some?;
    UuidText.Pow16Positive(UuidText.DIGITS);
    UuidText.CanonicalReadsBack(0);
    UuidText.EveryIdHasTwoSpellings(0);
    assert UuidText.Hex(0, UuidText.DIGITS) in texts && UuidText.Canonical(0) in texts;
    assert !OneSpellingEach(s, texts);
    CoherentExactly(s, texts);
  }

  // ---------- when a served post is current ----------

  predicate CommentsOn(s: Setup, db: Db, e: Event, p: Uuid) {
    && e.Handle? && e.request.CommentRequest? && Handled(s, db, e.request).Success?
    && s.idOf(e.request.path) == Some(p)
  }

  predicate UncommentsOn(s: Setup, db: Db, e: Event, p: Uuid) {
    && e.Handle? && e.request.UncommentRequest? && Handled(s, db, e.request).Success?
    && db.comments[s.idOf(e.request.comment).value].post == p
  }

  /** How many comments on p the events from j up to i created, and how many they deleted. */
  function Created(s: Setup, ws: seq<World>, es: seq<Event>, p: Uuid, j: nat, i: nat): nat
    requires j <= i < |ws| && |ws| == |es| + 1
  {
    if i == j then 0 else Created(s, ws, es, p, j, i - 1) + if CommentsOn(s, ws[i - 1].db, es[i - 1], p) then 1 else 0
  }

  function Deleted(s: Setup, ws: seq<World>, es: seq<Event>, p: Uuid, j: nat, i: nat): nat
    requires j <= i < |ws| && |ws| == |es| + 1
  {
    if i == j then 0 else Deleted(s, ws, es, p, j, i - 1) + if UncommentsOn(s, ws[i - 1].db, es[i - 1], p) then 1 else 0
  }

  lemma StepMovesComments(s: Setup, w: World, e: Event, p: Uuid)
    requires Legal(s, w, e)
    ensures |CommentsOf(Next(s, w, e).db, p)| ==
            |CommentsOf(w.db, p)| + (if CommentsOn(s, w.db, e, p) then 1 else 0) - (if UncommentsOn(s, w.db, e, p) then 1 else 0)
  {
    if e.Handle? && Handled(s, w.db, e.request).Success? {
      var c := CallOf(s, e.request).value;
      if c.CreateComment? {
        CommentAdded(w.db.comments, c.id, Comment(c.post, c.author, c.content));
      } else if c.DeleteComment? {
        CommentRemoved(w.db.comments, c.id);
      } else {
        assert After(w.db, c).comments == w.db.comments;
      }
    }
  }

  lemma {:induction false} CommentsMoveByEvents(s: Setup, ws: seq<World>, es: seq<Event>, p: Uuid, j: nat, i: nat)
    requires IsRun(s, ws, es) && j <= i < |ws|
    ensures |CommentsOf(ws[i].db, p)| == |CommentsOf(ws[j].db, p)| + Created(s, ws, es, p, j, i) - Deleted(s, ws, es, p, j, i)
  {
    if j < i {
      CommentsMoveByEvents(s, ws, es, p, j, i - 1);
      StepMovesComments(s, ws[i - 1], es[i - 1], p);
    }
  }

  /** A handler that spelled the id of `path` otherwise went through: it deleted another key. */
  predicate WritesOtherwise(s: Setup, db: Db, e: Event, path: string) {
    s.idOf(path).Some? && WritesTo(s, db, e, s.idOf(path).value) && Invalidates(e.request).value != path
  }

  predicate NoOtherSpellingWrote(s: Setup, ws: seq<World>, es: seq<Event>, path: string, j: nat, i: nat)
    requires j <= i < |ws| && |ws| == |es| + 1
  {
    forall k | j <= k < i :: !WritesOtherwise(s, ws[k].db, es[k], path)
  }

  /** The handlers of the entry's own spelling would have deleted it, so nothing has written to the post since. */
  lemma RowKeptSinceRead(s: Setup, ws: seq<World>, es: seq<Event>, i: nat, path: string, j: nat, k: nat)
    requires IsRun(s, ws, es) && i < |ws| && j <= k <= i && FilledAt(s, ws, es, i, path, j)
    requires NoOtherSpellingWrote(s, ws, es, path, j, i)
    ensures var p := s.idOf(path).value;
            p in ws[k].db.posts && AgreeButComments(View(p, ws[k].db.posts[p]), View(p, ws[j].db.posts[p]))
  {
    var p := s.idOf(path).value;
    forall m | j <= m < i ensures KeepsRow(ws[m].db, ws[m + 1].db, p) {
      NobodyWroteSinceRead(s, ws, es, i, path, j, m);
      if p in ws[m].db.posts { OtherStepsMoveCommentsOnly(s, ws[m], es[m], p); }
    }
    RowCarried(ws, p, j, k, i);
  }

  predicate KeepsRow(before: Db, after: Db, p: Uuid) {
    p in before.posts ==> p in after.posts && AgreeButComments(View(p, after.posts[p]), View(p, before.posts[p]))
  }

  lemma {:induction false} RowCarried(ws: seq<World>, p: Uuid, j: nat, k: nat, i: nat)
    requires j <= k <= i < |ws| && forall m | j <= m < i :: KeepsRow(ws[m].db, ws[m + 1].db, p)
    ensures KeepsRow(ws[j].db, ws[k].db, p)
  {
    if j < k {
      RowCarried(ws, p, j, k - 1, i);
      assert KeepsRow(ws[k - 1].db, ws[k - 1 + 1].db, p);
    }
  }

  lemma NobodyWroteSinceRead(s: Setup, ws: seq<World>, es: seq<Event>, i: nat, path: string, j: nat, k: nat)
    requires IsRun(s, ws, es) && i < |ws| && j <= k < i && FilledAt(s, ws, es, i, path, j)
    requires NoOtherSpellingWrote(s, ws, es, path, j, i)
    ensures !WritesTo(s, ws[k].db, es[k], s.idOf(path).value)
  {
    assert !WritesOtherwise(s, ws[k].db, es[k], path);
    assert path in ws[k + 1].cache;
    if WritesTo(s, ws[k].db, es[k], s.idOf(path).value) {
      WriteDeletesKey(s, ws[k], es[k], s.idOf(path).value);
    }
  }

  lemma WriteDeletesKey(s: Setup, w: World, e: Event, p: Uuid)
    requires WritesTo(s, w.db, e, p)
    ensures Invalidates(e.request).value !in Next(s, w, e).cache
  {
  }

  /**
   In any run, let j be where a served post was read. If since then no handler wrote to the post under another
   spelling, then what is served is the current row exactly if as many comments on the post were deleted as created.
   */
  lemma ServedIsCurrentExactly(s: Setup, ws: seq<World>, es: seq<Event>, i: nat, path: string) returns (j: nat)
    requires IsRun(s, ws, es) && i < |ws| && Served(s, ws[i], path).Success?
    ensures j <= i && ReadAt(s, ws, es, i, path, j)
    ensures s.idOf(path).Some? && s.idOf(path).value in ws[i].db.posts
    ensures NoOtherSpellingWrote(s, ws, es, path, j, i) ==>
              var p := s.idOf(path).value;
              && (Served(s, ws[i], path).value == View(p, ws[i].db.posts[p]) <==>
                    Created(s, ws, es, p, j, i) == Deleted(s, ws, es, p, j, i))
              && Served(s, ws[i], path).value.commentCount ==
                   ws[i].db.posts[p].commentCount - Created(s, ws, es, p, j, i) + Deleted(s, ws, es, p, j, i)
  {
    j := ServedIsRecent(s, ws, es, i, path);
    var p := s.idOf(path).value;
    PostsStay(s, ws, es, p, j, i);
    if NoOtherSpellingWrote(s, ws, es, path, j, i) {
      if j < i { RowKeptSinceRead(s, ws, es, i, path, j, i); }
      RunsStayConsistent(s, ws, es, i);
      RunsStayConsistent(s, ws, es, j);
      CommentsMoveByEvents(s, ws, es, p, j, i);
    }
  }

  lemma PostsStay(s: Setup, ws: seq<World>, es: seq<Event>, p: Uuid, j: nat, i: nat)
    requires IsRun(s, ws, es) && j <= i < |ws| && p in ws[j].db.posts
    ensures p in ws[i].db.posts
  {
    forall k | 0 <= k < |es| && p in ws[k].db.posts ensures p in ws[k + 1].db.posts {
      StepKeepsPosts(s, ws[k], es[k], p);
    }
    Carried(ws, p, j, i);
  }

  lemma {:induction false} Carried(ws: seq<World>, p: Uuid, j: nat, i: nat)
    requires j <= i < |ws| && p in ws[j].db.posts
    requires forall k | 0 <= k < |ws| - 1 && p in ws[k].db.posts :: p in ws[k + 1].db.posts
    ensures p in ws[i].db.posts
  {
    if j < i {
      Carried(ws, p, j, i - 1);
      assert p in ws[i - 1 + 1].db.posts;
    }
  }

  lemma StepKeepsPosts(s: Setup, w: World, e: Event, p: Uuid)
    requires p in w.db.posts
    ensures p in Next(s, w, e).db.posts
  {
    if e.Handle? && CallOf(s, e.request).Some? {
      OnlyAuthorsChangeTheirPosts(w.db, CallOf(s, e.request).value, p);
    }
  }

  /** A served view is of the post whose id the path spells: its author, first picture and creation time are that post's. */
  lemma ServedIsThePost(s: Setup, ws: seq<World>, es: seq<Event>, i: nat, path: string)
    requires IsRun(s, ws, es) && i < |ws| && Served(s, ws[i], path).Success?
    ensures var view := Served(s, ws[i], path).value;
            && s.idOf(path) == Some(view.id) && view.id in ws[i].db.posts
            && (var row := ws[i].db.posts[view.id];
                && view.author == row.author && view.createdAt == row.createdAt
                && (row.mediaUrls == [] ==> view.image == None)
                && (row.mediaUrls != [] ==> view.image == Some(row.mediaUrls[0])))
  {
    var j := ServedIsRecent(s, ws, es, i, path);
    ColumnsStay(s, ws, es, s.idOf(path).value, j, i);
  }

  predicate KeepsColumns(before: Db, after: Db, p: Uuid) {
    p in before.posts ==>
      && p in after.posts && after.posts[p].author == before.posts[p].author
      && after.posts[p].mediaUrls == before.posts[p].mediaUrls && after.posts[p].createdAt == before.posts[p].createdAt
  }

  lemma ColumnsStay(s: Setup, ws: seq<World>, es: seq<Event>, p: Uuid, j: nat, i: nat)
    requires IsRun(s, ws, es) && j <= i < |ws|
    ensures KeepsColumns(ws[j].db, ws[i].db, p)
  {
    forall k | 0 <= k < |ws| - 1 ensures KeepsColumns(ws[k].db, ws[k + 1].db, p) {
      StepKeepsColumns(s, ws[k], es[k], p);
    }
    ColumnsCarried(ws, p, j, i);
  }

  lemma StepKeepsColumns(s: Setup, w: World, e: Event, p: Uuid)
    ensures KeepsColumns(w.db, Next(s, w, e).db, p)
  {
    if p in w.db.posts && e.Handle? && CallOf(s, e.request).Some? {
      OnlyAuthorsChangeTheirPosts(w.db, CallOf(s, e.request).value, p);
    }
  }

  lemma {:induction false} ColumnsCarried(ws: seq<World>, p: Uuid, j: nat, i: nat)
    requires j <= i < |ws|
    requires forall k | 0 <= k < |ws| - 1 :: KeepsColumns(ws[k].db, ws[k + 1].db, p)
    ensures KeepsColumns(ws[j].db, ws[i].db, p)
  {
    if j < i {
      ColumnsCarried(ws, p, j, i - 1);
      assert KeepsColumns(ws[i - 1].db, ws[i - 1 + 1].db, p);
    }
  }

  /** In every run a GET is refused exactly for a text that is no id, or an id of no post. */
  lemma GetsAreRefusedExactly(s: Setup, ws: seq<World>, es: seq<Event>, i: nat, path: string)
    requires IsRun(s, ws, es) && i < |ws|
    ensures Served(s, ws[i], path) == Failure(InvalidId) <==> s.idOf(path).None?
    ensures Served(s, ws[i], path) == Failure(PostNotFound) <==>
            s.idOf(path).Some? && s.idOf(path).value !in ws[i].db.posts
  {
    if Served(s, ws[i], path).Success? {
      ServedIsThePost(s, ws, es, i, path);
    }
  }

  /** Clients that write every id in one way never write under another spelling. */
  lemma OneSpellingSuffices(s: Setup, ws: seq<World>, es: seq<Event>, texts: iset<string>, path: string, j: nat, i: nat)
    requires j <= i < |ws| && |ws| == |es| + 1
    requires PathsAmong(es, texts) && OneSpellingEach(s, texts) && path in texts
    ensures NoOtherSpellingWrote(s, ws, es, path, j, i)
  {
  }

  // ---------- one request ----------

  /** A handler that invalidates is read back at once by a GET that spells the id as it did: the answer is the row. */
  lemma InvalidatingHandlersAreReadBack(s: Setup, w: World, r: Request)
    requires Handled(s, w.db, r).Success? && Invalidates(r).Some? && s.idOf(Invalidates(r).value).value in w.db.posts
    ensures var p, d := s.idOf(Invalidates(r).value).value, Handled(s, w.db, r).value;
            p in d.posts && Served(s, Next(s, w, Handle(r)), Invalidates(r).value) == Success(View(p, d.posts[p]))
    ensures var p, view := s.idOf(Invalidates(r).value).value, Served(s, Next(s, w, Handle(r)), Invalidates(r).value).value;
            && (r.LikeRequest? ==> view.likeCount == w.db.posts[p].likeCount + 1)
            && (r.ReactRequest? ==> view.likeCount == w.db.posts[p].likeCount + if (p, r.user) in w.db.reactions then 0 else 1)
  {
  }

  /** An edit or a deletion is read back exactly if its use case does not enter the unit of work again, or nothing was to change. */
  lemma EditsAreReadBackExactly(s: Setup, w: World, r: Request)
    requires (r.UpdateRequest? && r.newText.Some?) || r.DeleteRequest?
    requires Handled(s, w.db, r).Success?
    ensures var p, view := s.idOf(r.path).value, Served(s, Next(s, w, Handle(r)), r.path).value;
            && p in w.db.posts
            && (r.UpdateRequest? ==> (view.text == r.newText.value <==> !s.entersAgain || w.db.posts[p].content == r.newText.value))
            && (r.DeleteRequest? ==> (!view.published <==> !s.entersAgain || !w.db.posts[p].published))
  {
  }

  /** What a route's name promises shows in the tables once its request went through, for the post its path spells. */
  lemma HandlersDoTheirWork(s: Setup, w: World, r: Request)
    requires Handled(s, w.db, r).Success?
    ensures var d := Next(s, w, Handle(r)).db;
            match r
            case CreateRequest(id, author, text, media, at) =>
              !s.entersAgain ==> id in d.posts && View(id, d.posts[id]) == PostView(
                id, author, text, if media == [] then None else Some(media[0]), 0, 0, true, at)
            case UpdateRequest(path, user, text) =>
              s.idOf(path).Some? && s.idOf(path).value in w.db.posts && w.db.posts[s.idOf(path).value].author == user
            case DeleteRequest(path, user) =>
              s.idOf(path).Some? && s.idOf(path).value in w.db.posts && w.db.posts[s.idOf(path).value].author == user
            case LikeRequest(path, user) => s.idOf(path).Some? && (s.idOf(path).value, user) in d.likes - w.db.likes
            case UnlikeRequest(path, user) => s.idOf(path).Some? && (s.idOf(path).value, user) in w.db.likes - d.likes
            case ReactRequest(path, user, kind) => s.idOf(path).Some? && ReactionAt(d, s.idOf(path).value, user) == Some(kind)
            case UnreactRequest(path, user) =>
              s.idOf(path).Some? && ReactionAt(w.db, s.idOf(path).value, user).Some? && ReactionAt(d, s.idOf(path).value, user).None?
            case CommentRequest(id, path, author, text) =>
              s.idOf(path).Some? && id in d.comments && d.comments[id] == Comment(s.idOf(path).value, author, text)
            case UncommentRequest(comment, user) =>
              s.idOf(comment).Some? && s.idOf(comment).value in w.db.comments && s.idOf(comment).value !in d.comments
              && w.db.comments[s.idOf(comment).value].author == user
  {
  }

  /** The comment handlers are not read back: a cached post keeps the count from before the comment. */
  lemma CommentLeavesHitStale(s: Setup, w: World, id: Uuid, path: string, author: Uuid, text: string)
    requires Coherent(s, w) && Lookup(w.cache, path, w.now).Some? && s.idOf(path).Some?
    requires Served(s, w, path) == Success(View(s.idOf(path).value, w.db.posts[s.idOf(path).value])) && ValidCommentContent(text)
    ensures var p, after := s.idOf(path).value, Next(s, w, Handle(CommentRequest(id, path, author, text)));
            && p in after.db.posts
            && Served(s, after, path) == Served(s, w, path)
            && Served(s, after, path).value.commentCount == after.db.posts[p].commentCount - 1
  {
  }

  /** Nor is the deletion of a comment: the cached count stays one too high. */
  lemma UncommentLeavesHitStale(s: Setup, w: World, path: string, comment: string, user: Uuid)
    requires Consistent(w.db) && Lookup(w.cache, path, w.now).Some? && s.idOf(path).Some? && s.idOf(path).value in w.db.posts
    requires Served(s, w, path) == Success(View(s.idOf(path).value, w.db.posts[s.idOf(path).value]))
    requires Handled(s, w.db, UncommentRequest(comment, user)).Success?
    requires w.db.comments[s.idOf(comment).value].post == s.idOf(path).value
    ensures var p, after := s.idOf(path).value, Next(s, w, Handle(UncommentRequest(comment, user)));
            && p in after.db.posts
            && Served(s, after, path) == Served(s, w, path)
            && Served(s, after, path).value.commentCount == after.db.posts[p].commentCount + 1
  {
    CommentRemoved(w.db.comments, s.idOf(comment).value);
  }

  // ---------- the handlers ----------

  class PostHandlers {
    const setup: Setup
    const db: PostDatabase
    const cache: Cache<string, PostView>

    function WorldAt(now: real): World
      reads db, cache
    {
      World(db.State(), cache.store, now)
    }

    constructor (setup: Setup)
      ensures fresh(db) && fresh(cache)
      ensures this.setup == setup && WorldAt(0.0) == World(EMPTY, map[], 0.0)
    {
      this.setup := setup;
      db := new PostDatabase();
      cache := new Cache<string, PostView>();
    }

    method Get(path: string, now: real) returns (result: Result<PostView, PostError>)
      modifies cache
      ensures result == Served(setup, old(WorldAt(now)), path)
      ensures WorldAt(now) == Next(setup, old(WorldAt(now)), GetPost(path))
    {
      var cached := cache.Get(path, now);
      if cached.Some? {
        return Success(cached.value);
      }
      var id := setup.idOf(path);
      if id.None? {
        return Failure(InvalidId);
      }
      if id.value !in db.posts {
        return Failure(PostNotFound);
      }
      var data := View(id.value, db.posts[id.value]);
      cache.Set(path, data, TTL_POST, now);
      return Success(data);
    }

    method Update(path: string, user: Uuid, text: Option<string>, now: real) returns (error: Option<PostError>)
      modifies db, cache
      ensures WorldAt(now) == Next(setup, old(WorldAt(now)), Handle(UpdateRequest(path, user, text)))
      ensures error == ErrorOf(Handled(setup, old(db.State()), UpdateRequest(path, user, text)))
    {
      var id := setup.idOf(path);
      if id.None? {
        return Some(InvalidId);
      }
      if setup.entersAgain {
        error := ErrorOf(Do(db.State(), UpdatePost(id.value, user, text)));
      } else {
        error := db.UpdatePost(id.value, user, text);
      }
      if error.None? {
        cache.Delete(path);
      }
    }

    method Delete(path: string, user: Uuid, now: real) returns (error: Option<PostError>)
      modifies db, cache
      ensures WorldAt(now) == Next(setup, old(WorldAt(now)), Handle(DeleteRequest(path, user)))
      ensures error == ErrorOf(Handled(setup, old(db.State()), DeleteRequest(path, user)))
    {
      var id := setup.idOf(path);
      if id.None? {
        return Some(InvalidId);
      }
      if setup.entersAgain {
        error := ErrorOf(Do(db.State(), DeletePost(id.value, user)));
      } else {
        error := db.DeletePost(id.value, user);
      }
      if error.None? {
        cache.Delete(path);
      }
    }

    method Like(path: string, user: Uuid, now: real) returns (error: Option<PostError>)
      modifies db, cache
      ensures WorldAt(now) == Next(setup, old(WorldAt(now)), Handle(LikeRequest(path, user)))
      ensures error == ErrorOf(Handled(setup, old(db.State()), LikeRequest(path, user)))
    {
      var id := setup.idOf(path);
      if id.None? {
        return Some(InvalidId);
      }
      error := db.Like(id.value, user);
      if error.None? {
        cache.Delete(path);
      }
    }

    method Unlike(path: string, user: Uuid, now: real) returns (error: Option<PostError>)
      modifies db, cache
      ensures WorldAt(now) == Next(setup, old(WorldAt(now)), Handle(UnlikeRequest(path, user)))
      ensures error == ErrorOf(Handled(setup, old(db.State()), UnlikeRequest(path, user)))
    {
      var id := setup.idOf(path);
      if id.None? {
        return Some(InvalidId);
      }
      error := db.Unlike(id.value, user);
      if error.None? {
        cache.Delete(path);
      }
    }

    method React(path: string, user: Uuid, kind: ReactionType, now: real) returns (error: Option<PostError>)
      modifies db, cache
      ensures WorldAt(now) == Next(setup, old(WorldAt(now)), Handle(ReactRequest(path, user, kind)))
      ensures error == ErrorOf(Handled(setup, old(db.State()), ReactRequest(path, user, kind)))
    {
      var id := setup.idOf(path);
      if id.None? {
        return Some(InvalidId);
      }
      error := db.React(id.value, user, kind);
      if error.None? {
        cache.Delete(path);
      }
    }

    method RemoveReaction(path: string, user: Uuid, now: real) returns (error: Option<PostError>)
      modifies db, cache
      ensures WorldAt(now) == Next(setup, old(WorldAt(now)), Handle(UnreactRequest(path, user)))
      ensures error == ErrorOf(Handled(setup, old(db.State()), UnreactRequest(path, user)))
    {
      var id := setup.idOf(path);
      if id.None? {
        return Some(InvalidId);
      }
      error := db.RemoveReaction(id.value, user);
      if error.None? {
        cache.Delete(path);
      }
    }

    method Comment(id: Uuid, path: string, author: Uuid, text: string, now: real) returns (error: Option<PostError>)
      modifies db
      ensures WorldAt(now) == Next(setup, old(WorldAt(now)), Handle(CommentRequest(id, path, author, text)))
      ensures error == ErrorOf(Handled(setup, old(db.State()), CommentRequest(id, path, author, text)))
    {
      var post := setup.idOf(path);
      if post.None? {
        return Some(InvalidId);
      }
      error := db.AddComment(id, post.value, author, text);
    }

    method Uncomment(comment: string, user: Uuid, now: real) returns (error: Option<PostError>)
      modifies db
      ensures WorldAt(now) == Next(setup, old(WorldAt(now)), Handle(UncommentRequest(comment, user)))
      ensures error == ErrorOf(Handled(setup, old(db.State()), UncommentRequest(comment, user)))
    {
      var id := setup.idOf(comment);
      if id.None? {
        return Some(InvalidId);
      }
      error := db.DeleteComment(id.value, user);
    }
  }
}
