/**
 Posts with their denormalised counters, and the like, reaction and comment rows the counters stand for.
 Each use case is one serial transaction: a failure leaves every table as it was.
 */
module PostStore {
  import opened Common
  import Text

  datatype Post = Post(
    author: Uuid, content: string, mediaUrls: seq<string>,
    likeCount: int, commentCount: int, published: bool, createdAt: int)
  {
    function IncrementLikeCount(): Post { this.(likeCount := likeCount + 1) }
    function DecrementLikeCount(): Post { this.(likeCount := Max(0, likeCount - 1)) }
    function IncrementCommentCount(): Post { this.(commentCount := commentCount + 1) }
    function DecrementCommentCount(): Post { this.(commentCount := Max(0, commentCount - 1)) }
    function UpdateContent(newContent: string): Post { this.(content := newContent) }
    function Delete(): Post { this.(published := false) }
  }

  datatype ReactionType = LIKE | LOVE | HAHA | WOW | SAD | ANGRY

  datatype Comment = Comment(post: Uuid, author: Uuid, content: string)

  /** A row of likes or reactions is found by its (post, user) pair, which both tables declare unique. */
  type PostUser = (Uuid, Uuid)

  datatype Db = Db(
    posts: map<Uuid, Post>, likes: set<PostUser>,
    reactions: map<PostUser, ReactionType>, comments: map<Uuid, Comment>)

  const EMPTY := Db(map[], {}, map[], map[])

  datatype PostError =
    | InvalidContent | PostNotFound | PostPermission | AlreadyLiked | NotLiked
    | AlreadyReacted | ReactionNotFound | CommentNotFound | CommentPermission | IntegrityError | InvalidId

  // ---------- the rows behind a counter ----------

  function RowsAt(keys: set<PostUser>, p: Uuid): set<PostUser> {
    set k | k in keys && k.0 == p
  }

  function CommentsAt(comments: map<Uuid, Comment>, p: Uuid): set<Uuid> {
    set i | i in comments && comments[i].post == p
  }

  function LikesOf(db: Db, p: Uuid): set<PostUser> {
    RowsAt(db.likes, p)
  }

  function ReactionsOf(db: Db, p: Uuid): set<PostUser> {
    RowsAt(db.reactions.Keys, p)
  }

  function CommentsOf(db: Db, p: Uuid): set<Uuid> {
    CommentsAt(db.comments, p)
  }

  lemma KeyAdded(keys: set<PostUser>, p: Uuid, u: Uuid)
    requires (p, u) !in keys
    ensures forall q :: |RowsAt(keys + {(p, u)}, q)| == |RowsAt(keys, q)| + if q == p then 1 else 0
  {
    forall q ensures |RowsAt(keys + {(p, u)}, q)| == |RowsAt(keys, q)| + if q == p then 1 else 0 {
      assert RowsAt(keys + {(p, u)}, q) == RowsAt(keys, q) + if q == p then {(p, u)} else {};
    }
  }

  lemma KeyRemoved(keys: set<PostUser>, p: Uuid, u: Uuid)
    requires (p, u) in keys
    ensures forall q :: |RowsAt(keys - {(p, u)}, q)| == |RowsAt(keys, q)| - if q == p then 1 else 0
    ensures |RowsAt(keys, p)| >= 1
  {
    KeyAdded(keys - {(p, u)}, p, u);
    assert keys - {(p, u)} + {(p, u)} == keys;
  }

  lemma CommentAdded(comments: map<Uuid, Comment>, id: Uuid, c: Comment)
    requires id !in comments
    ensures forall q :: |CommentsAt(comments[id := c], q)| == |CommentsAt(comments, q)| + if q == c.post then 1 else 0
  {
    forall q ensures |CommentsAt(comments[id := c], q)| == |CommentsAt(comments, q)| + if q == c.post then 1 else 0 {
      assert CommentsAt(comments[id := c], q) == CommentsAt(comments, q) + if q == c.post then {id} else {};
    }
  }

  lemma CommentRemoved(comments: map<Uuid, Comment>, id: Uuid)
    requires id in comments
    ensures forall q :: |CommentsAt(comments - {id}, q)| == |CommentsAt(comments, q)| - if q == comments[id].post then 1 else 0
    ensures |CommentsAt(comments, comments[id].post)| >= 1
  {
    CommentAdded(comments - {id}, id, comments[id]);
    assert (comments - {id})[id := comments[id]] == comments;
  }

  /** The foreign keys into posts. */
  predicate PostsExist(db: Db) {
    && (forall k | k in db.likes :: k.0 in db.posts)
    && (forall k | k in db.reactions :: k.0 in db.posts)
    && (forall i | i in db.comments :: db.comments[i].post in db.posts)
  }

  predicate CountersExact(db: Db) {
    forall p | p in db.posts ::
      && db.posts[p].likeCount == |LikesOf(db, p)| + |ReactionsOf(db, p)|
      && db.posts[p].commentCount == |CommentsOf(db, p)|
  }

  predicate Consistent(db: Db) {
    PostsExist(db) && CountersExact(db)
  }

  // ---------- the use cases as functions of the database ----------

  predicate ValidPostContent(content: string) {
    !Text.IsBlank(content) && |content| <= 5000
  }

  predicate ValidCommentContent(content: string) {
    !Text.IsBlank(content) && |content| <= 2000
  }

  function SaveLike(db: Db, p: Uuid, u: Uuid): Result<Db, PostError> {
    if (p, u) in db.likes then Failure(IntegrityError)
    else Success(db.(likes := db.likes + {(p, u)}))
  }

  function SaveReaction(db: Db, p: Uuid, u: Uuid, kind: ReactionType): Result<Db, PostError> {
    if (p, u) in db.reactions then Failure(IntegrityError)
    else Success(db.(reactions := db.reactions[(p, u) := kind]))
  }

  function SavePost(db: Db, p: Uuid, post: Post): Db {
    db.(posts := db.posts[p := post])
  }

  function Create(db: Db, id: Uuid, author: Uuid, content: string, media: seq<string>, at: int): Result<Db, PostError> {
    if !ValidPostContent(content) then Failure(InvalidContent)
    else if id in db.posts then Failure(IntegrityError)
    else Success(db.(posts := db.posts[id := Post(author, content, media, 0, 0, true, at)]))
  }

  function Update(db: Db, p: Uuid, u: Uuid, content: Option<string>): Result<Db, PostError> {
    if p !in db.posts then Failure(PostNotFound)
    else if db.posts[p].author != u then Failure(PostPermission)
    else if content.None? then Success(db)
    else if !ValidPostContent(content.value) then Failure(InvalidContent)
    else Success(SavePost(db, p, db.posts[p].UpdateContent(content.value)))
  }

  function SoftDelete(db: Db, p: Uuid, u: Uuid): Result<Db, PostError> {
    if p !in db.posts then Failure(PostNotFound)
    else if db.posts[p].author != u then Failure(PostPermission)
    else Success(SavePost(db, p, db.posts[p].Delete()))
  }

  function AddLike(db: Db, p: Uuid, u: Uuid): Result<Db, PostError> {
    if p !in db.posts then Failure(PostNotFound)
    else if (p, u) in db.likes then Failure(AlreadyLiked)
    else
      var saved := SaveLike(db, p, u);
      if saved.Failure? then saved
      else Success(SavePost(saved.value, p, db.posts[p].IncrementLikeCount()))
  }

  function Unlike(db: Db, p: Uuid, u: Uuid): Result<Db, PostError> {
    if (p, u) !in db.likes then Failure(NotLiked)
    else
      var updated := if p in db.posts then SavePost(db, p, db.posts[p].DecrementLikeCount()) else db;
      Success(updated.(likes := updated.likes - {(p, u)}))
  }

  /** A first reaction counts; one of another kind replaces the old row and leaves the counter alone. */
  function React(db: Db, p: Uuid, u: Uuid, kind: ReactionType): Result<Db, PostError> {
    if p !in db.posts then Failure(PostNotFound)
    else if (p, u) in db.reactions then
      if db.reactions[(p, u)] == kind then Failure(AlreadyReacted)
      else SaveReaction(db.(reactions := db.reactions - {(p, u)}), p, u, kind)
    else
      SaveReaction(SavePost(db, p, db.posts[p].IncrementLikeCount()), p, u, kind)
  }

  function Unreact(db: Db, p: Uuid, u: Uuid): Result<Db, PostError> {
    if (p, u) !in db.reactions then Failure(ReactionNotFound)
    else
      var updated := if p in db.posts then SavePost(db, p, db.posts[p].DecrementLikeCount()) else db;
      Success(updated.(reactions := updated.reactions - {(p, u)}))
  }

  function AddComment(db: Db, id: Uuid, p: Uuid, author: Uuid, content: string): Result<Db, PostError> {
    if p !in db.posts then Failure(PostNotFound)
    else if !ValidCommentContent(content) then Failure(InvalidContent)
    else Success(SavePost(db.(comments := db.comments[id := Comment(p, author, content)]), p,
                          db.posts[p].IncrementCommentCount()))
  }

  function Uncomment(db: Db, id: Uuid, u: Uuid): Result<Db, PostError> {
    if id !in db.comments then Failure(CommentNotFound)
    else if db.comments[id].author != u then Failure(CommentPermission)
    else
      var p := db.comments[id].post;
      var updated := if p in db.posts then SavePost(db, p, db.posts[p].DecrementCommentCount()) else db;
      Success(updated.(comments := updated.comments - {id}))
  }

  datatype Call =
    | CreatePost(id: Uuid, author: Uuid, content: string, mediaUrls: seq<string>, createdAt: int)
    | UpdatePost(post: Uuid, user: Uuid, newContent: Option<string>)
    | DeletePost(post: Uuid, user: Uuid)
    | LikePost(post: Uuid, user: Uuid)
    | UnlikePost(post: Uuid, user: Uuid)
    | ReactToPost(post: Uuid, user: Uuid, kind: ReactionType)
    | RemoveReaction(post: Uuid, user: Uuid)
    | CreateComment(id: Uuid, post: Uuid, author: Uuid, content: string)
    | DeleteComment(id: Uuid, user: Uuid)

  /** The UUID generated for a comment is not in the table yet; the repository would overwrite the row. */
  predicate FreshId(db: Db, c: Call) {
    c.CreateComment? ==> c.id !in db.comments
  }

  function Do(db: Db, c: Call): Result<Db, PostError> {
    match c
    case CreatePost(id, author, content, media, at) => Create(db, id, author, content, media, at)
    case UpdatePost(p, u, content) => Update(db, p, u, content)
    case DeletePost(p, u) => SoftDelete(db, p, u)
    case LikePost(p, u) => AddLike(db, p, u)
    case UnlikePost(p, u) => Unlike(db, p, u)
    case ReactToPost(p, u, kind) => React(db, p, u, kind)
    case RemoveReaction(p, u) => Unreact(db, p, u)
    case CreateComment(id, p, author, content) => AddComment(db, id, p, author, content)
    case DeleteComment(id, u) => Uncomment(db, id, u)
  }

  function After(db: Db, c: Call): Db {
    if Do(db, c).Success? then Do(db, c).value else db
  }

  // ---------- one call ----------

  /** Counters stay exact if only p's may move, and each moves by as much as its rows do. */
  lemma CountersFollowRows(db: Db, d: Db, p: Uuid, likes: int, comments: int)
    requires CountersExact(db) && p in db.posts && d.posts.Keys == db.posts.Keys
    requires forall q | q in db.posts :: d.posts[q].likeCount == db.posts[q].likeCount + if q == p then likes else 0
    requires forall q | q in db.posts :: d.posts[q].commentCount == db.posts[q].commentCount + if q == p then comments else 0
    requires forall q :: |LikesOf(d, q)| + |ReactionsOf(d, q)| ==
                         |LikesOf(db, q)| + |ReactionsOf(db, q)| + if q == p then likes else 0
    requires forall q :: |CommentsOf(d, q)| == |CommentsOf(db, q)| + if q == p then comments else 0
    ensures CountersExact(d)
  {
  }

  lemma CreateKeeps(db: Db, id: Uuid, author: Uuid, content: string, media: seq<string>, at: int)
    requires Consistent(db) && Create(db, id, author, content, media, at).Success?
    ensures Consistent(Create(db, id, author, content, media, at).value)
  {
  }

  lemma UpdateKeeps(db: Db, p: Uuid, u: Uuid, content: Option<string>)
    requires Consistent(db) && Update(db, p, u, content).Success?
    ensures Consistent(Update(db, p, u, content).value)
  {
  }

  lemma SoftDeleteKeeps(db: Db, p: Uuid, u: Uuid)
    requires Consistent(db) && SoftDelete(db, p, u).Success?
    ensures Consistent(SoftDelete(db, p, u).value)
  {
  }

  lemma LikeKeeps(db: Db, p: Uuid, u: Uuid)
    requires Consistent(db) && AddLike(db, p, u).Success?
    ensures Consistent(AddLike(db, p, u).value)
  {
    var d := AddLike(db, p, u).value;
    assert PostsExist(d);
    assert CountersExact(d) by {
      KeyAdded(db.likes, p, u);
      CountersFollowRows(db, d, p, 1, 0);
    }
  }

  lemma UnlikeKeeps(db: Db, p: Uuid, u: Uuid)
    requires Consistent(db) && Unlike(db, p, u).Success?
    ensures Consistent(Unlike(db, p, u).value)
  {
    var d := Unlike(db, p, u).value;
    assert PostsExist(d);
    assert CountersExact(d) by {
      KeyRemoved(db.likes, p, u);
      CountersFollowRows(db, d, p, -1, 0);
    }
  }

  /** Only which reactions exist matters to the counters, not their kinds. */
  lemma OtherKindsKeep(db: Db, reactions: map<PostUser, ReactionType>)
    requires Consistent(db) && reactions.Keys == db.reactions.Keys
    ensures Consistent(db.(reactions := reactions))
  {
  }

  lemma FirstReactionKeeps(db: Db, p: Uuid, u: Uuid, kind: ReactionType)
    requires Consistent(db) && p in db.posts && (p, u) !in db.reactions
    ensures Consistent(React(db, p, u, kind).value)
  {
    var d := React(db, p, u, kind).value;
    assert d.reactions.Keys == db.reactions.Keys + {(p, u)};
    KeyAdded(db.reactions.Keys, p, u);
    CountersFollowRows(db, d, p, 1, 0);
  }

  lemma ReactKeeps(db: Db, p: Uuid, u: Uuid, kind: ReactionType)
    requires Consistent(db) && React(db, p, u, kind).Success?
    ensures Consistent(React(db, p, u, kind).value)
  {
    if (p, u) in db.reactions {
      var reactions := (db.reactions - {(p, u)})[(p, u) := kind];
      assert reactions.Keys == db.reactions.Keys;
      OtherKindsKeep(db, reactions);
    } else {
      FirstReactionKeeps(db, p, u, kind);
    }
  }

  lemma UnreactKeeps(db: Db, p: Uuid, u: Uuid)
    requires Consistent(db) && Unreact(db, p, u).Success?
    ensures Consistent(Unreact(db, p, u).value)
  {
    var d := Unreact(db, p, u).value;
    assert d.reactions.Keys == db.reactions.Keys - {(p, u)};
    KeyRemoved(db.reactions.Keys, p, u);
    CountersFollowRows(db, d, p, -1, 0);
  }

  lemma CommentKeeps(db: Db, id: Uuid, p: Uuid, author: Uuid, content: string)
    requires Consistent(db) && id !in db.comments && AddComment(db, id, p, author, content).Success?
    ensures Consistent(AddComment(db, id, p, author, content).value)
  {
    var d := AddComment(db, id, p, author, content).value;
    assert PostsExist(d);
    assert CountersExact(d) by {
      CommentAdded(db.comments, id, Comment(p, author, content));
      CountersFollowRows(db, d, p, 0, 1);
    }
  }

  lemma UncommentKeeps(db: Db, id: Uuid, u: Uuid)
    requires Consistent(db) && Uncomment(db, id, u).Success?
    ensures Consistent(Uncomment(db, id, u).value)
  {
    var d := Uncomment(db, id, u).value;
    assert PostsExist(d);
    assert CountersExact(d) by {
      CommentRemoved(db.comments, id);
      CountersFollowRows(db, d, db.comments[id].post, 0, -1);
    }
  }

  /** Every use case, successful or not, keeps the counters equal to their rows. */
  lemma CallKeepsConsistent(db: Db, c: Call)
    requires Consistent(db) && FreshId(db, c)
    ensures Consistent(After(db, c))
  {
    if Do(db, c).Success? {
      match c
      case CreatePost(id, author, content, media, at) => CreateKeeps(db, id, author, content, media, at);
      case UpdatePost(p, u, content) => UpdateKeeps(db, p, u, content);
      case DeletePost(p, u) => SoftDeleteKeeps(db, p, u);
      case LikePost(p, u) => LikeKeeps(db, p, u);
      case UnlikePost(p, u) => UnlikeKeeps(db, p, u);
      case ReactToPost(p, u, kind) => ReactKeeps(db, p, u, kind);
      case RemoveReaction(p, u) => UnreactKeeps(db, p, u);
      case CreateComment(id, p, author, content) => CommentKeeps(db, id, p, author, content);
      case DeleteComment(id, u) => UncommentKeeps(db, id, u);
    }
  }

  /** Every decrement finds a row to take away, so the clamp at zero never acts. */
  lemma ClampNeverActs(db: Db, c: Call)
    requires Consistent(db) && Do(db, c).Success?
    ensures c.UnlikePost? || c.RemoveReaction? ==>
              && c.post in db.posts && db.posts[c.post].likeCount >= 1
              && After(db, c).posts[c.post].likeCount == db.posts[c.post].likeCount - 1
    ensures c.DeleteComment? ==>
              var p := db.comments[c.id].post;
              && p in db.posts && db.posts[p].commentCount >= 1
              && After(db, c).posts[p].commentCount == db.posts[p].commentCount - 1
  {
    if c.UnlikePost? {
      KeyRemoved(db.likes, c.post, c.user);
    } else if c.RemoveReaction? {
      KeyRemoved(db.reactions.Keys, c.post, c.user);
    } else if c.DeleteComment? {
      CommentRemoved(db.comments, c.id);
    }
  }

  /** posts.updated_at: the database stamps a new row, and every row of which an UPDATE changes a column. */
  function Stamps(before: map<Uuid, Post>, after: map<Uuid, Post>, at: map<Uuid, int>, now: int): map<Uuid, int> {
    map p | p in after :: if p in before && p in at && after[p] == before[p] then at[p] else now
  }

  /** One row changed and changed back is stamped at the second change, and no other is. */
  lemma StampedThereAndBack(posts: map<Uuid, Post>, p: Uuid, row: Post, at: map<Uuid, int>, earlier: int, now: int)
    requires p in posts && row != posts[p] && at.Keys == posts.Keys
    ensures Stamps(posts[p := row], posts, Stamps(posts, posts[p := row], at, earlier), now) == at[p := now]
  {
    assert Stamps(posts, posts[p := row], at, earlier) == at[p := earlier];
  }

  /** An unlike undoes a like, and removing a first reaction undoes it: every table is as before, but for the one post's updated_at. */
  lemma UnlikeUndoesLike(db: Db, p: Uuid, u: Uuid, at: map<Uuid, int>, earlier: int, now: int)
    requires Consistent(db) && p in db.posts && (p, u) !in db.likes && at.Keys == db.posts.Keys
    ensures After(After(db, LikePost(p, u)), UnlikePost(p, u)) == db
    ensures var there := After(db, LikePost(p, u));
            Stamps(there.posts, After(there, UnlikePost(p, u)).posts, Stamps(db.posts, there.posts, at, earlier), now) == at[p := now]
  {
    UnlikeRestores(db, p, u);
    StampedThereAndBack(db.posts, p, db.posts[p].IncrementLikeCount(), at, earlier, now);
  }

  lemma UnlikeRestores(db: Db, p: Uuid, u: Uuid)
    requires Consistent(db) && p in db.posts && (p, u) !in db.likes
    ensures After(After(db, LikePost(p, u)), UnlikePost(p, u)) == db
    ensures After(db, LikePost(p, u)).posts == db.posts[p := db.posts[p].IncrementLikeCount()]
  {
    var liked := SavePost(db.(likes := db.likes + {(p, u)}), p, db.posts[p].IncrementLikeCount());
    CountTakenBack(db.posts, p);
    assert liked.likes - {(p, u)} == db.likes;
    assert Unlike(liked, p, u) == Success(db);
  }

  lemma CountTakenBack(posts: map<Uuid, Post>, p: Uuid)
    requires p in posts && posts[p].likeCount >= 0
    ensures posts[p := posts[p].IncrementLikeCount()][p := posts[p].IncrementLikeCount().DecrementLikeCount()] == posts
  {
  }

  lemma RemovalUndoesFirstReaction(db: Db, p: Uuid, u: Uuid, kind: ReactionType, at: map<Uuid, int>, earlier: int, now: int)
    requires Consistent(db) && p in db.posts && (p, u) !in db.reactions && at.Keys == db.posts.Keys
    ensures After(After(db, ReactToPost(p, u, kind)), RemoveReaction(p, u)) == db
    ensures var there := After(db, ReactToPost(p, u, kind));
            Stamps(there.posts, After(there, RemoveReaction(p, u)).posts, Stamps(db.posts, there.posts, at, earlier), now) == at[p := now]
  {
    RemovalRestores(db, p, u, kind);
    StampedThereAndBack(db.posts, p, db.posts[p].IncrementLikeCount(), at, earlier, now);
  }

  lemma RemovalRestores(db: Db, p: Uuid, u: Uuid, kind: ReactionType)
    requires Consistent(db) && p in db.posts && (p, u) !in db.reactions
    ensures After(After(db, ReactToPost(p, u, kind)), RemoveReaction(p, u)) == db
    ensures After(db, ReactToPost(p, u, kind)).posts == db.posts[p := db.posts[p].IncrementLikeCount()]
  {
    var reacted := SavePost(db.(reactions := db.reactions[(p, u) := kind]), p, db.posts[p].IncrementLikeCount());
    CountTakenBack(db.posts, p);
    assert reacted.reactions - {(p, u)} == db.reactions;
    assert Unreact(reacted, p, u) == Success(db);
  }

  /** Nobody changes what is another's: likes, reactions and comments come and go by their own user's calls alone. */
  lemma OnlyOwnersChangeTheirRows(db: Db, c: Call, p: Uuid, u: Uuid, i: Uuid)
    requires FreshId(db, c)
    ensures ((p, u) in After(db, c).likes) != ((p, u) in db.likes) ==>
              c == LikePost(p, u) || c == UnlikePost(p, u)
    ensures ReactionAt(After(db, c), p, u) != ReactionAt(db, p, u) ==>
              c == RemoveReaction(p, u) || (c.ReactToPost? && c.post == p && c.user == u)
    ensures i in db.comments && (i !in After(db, c).comments || After(db, c).comments[i] != db.comments[i]) ==>
              c == DeleteComment(i, db.comments[i].author)
  {
    OnlyReactorsChangeReactions(db, c, p, u);
    var after := After(db, c);
    match c
    case LikePost(_, _) => assert after.comments == db.comments;
    case UnlikePost(_, _) => assert after.comments == db.comments;
    case CreateComment(_, _, _, _) => assert after.likes == db.likes;
    case DeleteComment(_, _) => assert after.likes == db.likes;
    case _ => assert after.likes == db.likes && after.comments == db.comments;
  }

  lemma OnlyReactorsChangeReactions(db: Db, c: Call, p: Uuid, u: Uuid)
    ensures ReactionAt(After(db, c), p, u) != ReactionAt(db, p, u) ==>
              c == RemoveReaction(p, u) || (c.ReactToPost? && c.post == p && c.user == u)
  {
    if !c.ReactToPost? && !c.RemoveReaction? {
      assert After(db, c).reactions == db.reactions;
    }
  }

  /** A post stays for good; its text and its visibility are its author's to change, and no call publishes it again. */
  lemma OnlyAuthorsChangeTheirPosts(db: Db, c: Call, p: Uuid)
    requires p in db.posts
    ensures p in After(db, c).posts
    ensures var before, after := db.posts[p], After(db, c).posts[p];
            && after.author == before.author && after.mediaUrls == before.mediaUrls && after.createdAt == before.createdAt
            && (after.content != before.content ==> c == UpdatePost(p, before.author, Some(after.content)))
            && (after.published != before.published ==> c == DeletePost(p, before.author) && before.published)
  {
  }

  function ReactionAt(db: Db, p: Uuid, u: Uuid): Option<ReactionType> {
    if (p, u) in db.reactions then Some(db.reactions[(p, u)]) else None
  }

  // ---------- what each call does and when it is refused ----------

  /** Creating needs content; the post is then there as given, with nothing counted and published. */
  lemma CreatesExactly(db: Db, id: Uuid, author: Uuid, content: string, media: seq<string>, at: int)
    requires id !in db.posts
    ensures var c := Call.CreatePost(id, author, content, media, at);
            && (Do(db, c).Success? <==> !Text.IsBlank(content) && |content| <= 5000)
            && (Do(db, c).Failure? ==> Do(db, c).error == InvalidContent)
            && (Do(db, c).Success? ==>
                  var d := Do(db, c).value;
                  && d.posts.Keys == db.posts.Keys + {id}
                  && d.posts[id].author == author && d.posts[id].content == content && d.posts[id].mediaUrls == media
                  && d.posts[id].createdAt == at && d.posts[id].published
                  && d.posts[id].likeCount == 0 == d.posts[id].commentCount)
  {
  }

  /** Only the author edits; without a new text nothing changes, with one the text is the post's. */
  lemma UpdatesExactly(db: Db, p: Uuid, u: Uuid, content: Option<string>)
    requires p in db.posts
    ensures var c := Call.UpdatePost(p, u, content);
            && (Do(db, c) == Failure(PostPermission) <==> u != db.posts[p].author)
            && (Do(db, c).Success? <==> u == db.posts[p].author && (content.Some? ==> ValidPostContent(content.value)))
            && (Do(db, c).Success? ==>
                  && p in Do(db, c).value.posts
                  && Do(db, c).value.posts[p].content == if content.Some? then content.value else db.posts[p].content)
  {
    assert db.posts[p := db.posts[p]] == db.posts;
  }

  /** Only the author deletes; the post stays and is no longer published. */
  lemma DeletesExactly(db: Db, p: Uuid, u: Uuid)
    requires p in db.posts
    ensures var c := Call.DeletePost(p, u);
            && (Do(db, c) == Failure(PostPermission) <==> u != db.posts[p].author)
            && (Do(db, c).Success? <==> u == db.posts[p].author)
            && (Do(db, c).Success? ==> p in Do(db, c).value.posts && !Do(db, c).value.posts[p].published)
  {
  }

  /** Whoever has not liked a post can like it, whoever has can take that back, and either way it shows. */
  lemma LikesExactly(db: Db, p: Uuid, u: Uuid)
    requires p in db.posts
    ensures Do(db, LikePost(p, u)).Success? <==> (p, u) !in db.likes
    ensures Do(db, LikePost(p, u)) == Failure(AlreadyLiked) <==> (p, u) in db.likes
    ensures Do(db, UnlikePost(p, u)).Success? <==> (p, u) in db.likes
    ensures Do(db, UnlikePost(p, u)) == Failure(NotLiked) <==> (p, u) !in db.likes
    ensures (p, u) in After(db, LikePost(p, u)).likes && (p, u) !in After(db, UnlikePost(p, u)).likes
  {
  }

  /** Any kind of reaction is taken but the one that is there; after it that kind is there. A reaction that is there can be removed. */
  lemma ReactionsExactly(db: Db, p: Uuid, u: Uuid, kind: ReactionType)
    requires p in db.posts
    ensures Do(db, ReactToPost(p, u, kind)).Success? <==> ReactionAt(db, p, u) != Some(kind)
    ensures Do(db, ReactToPost(p, u, kind)) == Failure(AlreadyReacted) <==> ReactionAt(db, p, u) == Some(kind)
    ensures ReactionAt(After(db, ReactToPost(p, u, kind)), p, u) == Some(kind)
    ensures Do(db, Call.RemoveReaction(p, u)).Success? <==> ReactionAt(db, p, u).Some?
    ensures Do(db, Call.RemoveReaction(p, u)) == Failure(ReactionNotFound) <==> ReactionAt(db, p, u).None?
    ensures ReactionAt(After(db, Call.RemoveReaction(p, u)), p, u) == None
  {
  }

  /** A comment with content is there as given, and goes only by its author. */
  lemma CommentsExactly(db: Db, id: Uuid, p: Uuid, u: Uuid, content: string)
    requires p in db.posts
    ensures Do(db, CreateComment(id, p, u, content)).Success? <==> !Text.IsBlank(content) && |content| <= 2000
    ensures Do(db, CreateComment(id, p, u, content)).Failure? ==> Do(db, CreateComment(id, p, u, content)).error == InvalidContent
    ensures Do(db, CreateComment(id, p, u, content)).Success? ==>
              var d := Do(db, CreateComment(id, p, u, content)).value;
              && id in d.comments && d.comments[id].post == p && d.comments[id].author == u && d.comments[id].content == content
    ensures Do(db, Call.DeleteComment(id, u)).Success? <==> id in db.comments && db.comments[id].author == u
    ensures Do(db, Call.DeleteComment(id, u)) == Failure(CommentNotFound) <==> id !in db.comments
    ensures Do(db, Call.DeleteComment(id, u)) == Failure(CommentPermission) <==> id in db.comments && db.comments[id].author != u
    ensures Do(db, Call.DeleteComment(id, u)).Success? ==> id !in Do(db, Call.DeleteComment(id, u)).value.comments
  {
  }

  /** On a post that is not there nothing succeeds but taking away what was on it. */
  lemma MissingPostsAreNotFound(db: Db, p: Uuid, u: Uuid, id: Uuid, kind: ReactionType, content: Option<string>, text: string)
    requires p !in db.posts
    ensures Do(db, LikePost(p, u)) == Do(db, ReactToPost(p, u, kind)) == Do(db, CreateComment(id, p, u, text)) == Failure(PostNotFound)
    ensures Do(db, Call.UpdatePost(p, u, content)) == Do(db, Call.DeletePost(p, u)) == Failure(PostNotFound)
  {
  }

  // ---------- whole runs ----------

  /** dbs are the databases that a serial run of calls goes through, from the empty one. */
  predicate IsRun(dbs: seq<Db>, calls: seq<Call>) {
    && |dbs| == |calls| + 1
    && dbs[0] == EMPTY
    && forall i | 0 <= i < |calls| :: FreshId(dbs[i], calls[i]) && dbs[i + 1] == After(dbs[i], calls[i])
  }

  lemma {:induction false} CountersExactInEveryRun(dbs: seq<Db>, calls: seq<Call>, n: nat)
    requires IsRun(dbs, calls) && n < |dbs|
    ensures Consistent(dbs[n])
  {
    if n > 0 {
      CountersExactInEveryRun(dbs, calls, n - 1);
      CallKeepsConsistent(dbs[n - 1], calls[n - 1]);
    }
  }

  // ---------- the tables and the use cases over them ----------

  class PostDatabase {
    var posts: map<Uuid, Post>
    var likes: set<PostUser>
    var reactions: map<PostUser, ReactionType>
    var comments: map<Uuid, Comment>

    function State(): Db
      reads this
    {
      Db(posts, likes, reactions, comments)
    }

    constructor ()
      ensures State() == EMPTY
    {
      posts, likes, reactions, comments := map[], {}, map[], map[];
    }

    method Like(post: Uuid, user: Uuid) returns (error: Option<PostError>)
      modifies this
      ensures State() == After(old(State()), LikePost(post, user))
      ensures error == ErrorOf(Do(old(State()), LikePost(post, user)))
    {
      if post !in posts {
        return Some(PostNotFound);
      }
      if (post, user) in likes {
        return Some(AlreadyLiked);
      }
      var found := posts[post];
      likes := likes + {(post, user)};
      posts := posts[post := found.IncrementLikeCount()];
      return None;
    }

    method Unlike(post: Uuid, user: Uuid) returns (error: Option<PostError>)
      modifies this
      ensures State() == After(old(State()), UnlikePost(post, user))
      ensures error == ErrorOf(Do(old(State()), UnlikePost(post, user)))
    {
      if (post, user) !in likes {
        return Some(NotLiked);
      }
      if post in posts {
        posts := posts[post := posts[post].DecrementLikeCount()];
      }
      likes := likes - {(post, user)};
      return None;
    }

    method React(post: Uuid, user: Uuid, kind: ReactionType) returns (error: Option<PostError>)
      modifies this
      ensures State() == After(old(State()), ReactToPost(post, user, kind))
      ensures error == ErrorOf(Do(old(State()), ReactToPost(post, user, kind)))
    {
      if post !in posts {
        return Some(PostNotFound);
      }
      if (post, user) in reactions {
        if reactions[(post, user)] == kind {
          return Some(AlreadyReacted);
        }
        reactions := reactions - {(post, user)};
      } else {
        posts := posts[post := posts[post].IncrementLikeCount()];
      }
      reactions := reactions[(post, user) := kind];
      return None;
    }

    method RemoveReaction(post: Uuid, user: Uuid) returns (error: Option<PostError>)
      modifies this
      ensures State() == After(old(State()), Call.RemoveReaction(post, user))
      ensures error == ErrorOf(Do(old(State()), Call.RemoveReaction(post, user)))
    {
      if (post, user) !in reactions {
        return Some(ReactionNotFound);
      }
      if post in posts {
        posts := posts[post := posts[post].DecrementLikeCount()];
      }
      reactions := reactions - {(post, user)};
      return None;
    }

    method AddComment(id: Uuid, post: Uuid, author: Uuid, content: string) returns (error: Option<PostError>)
      modifies this
      ensures State() == After(old(State()), CreateComment(id, post, author, content))
      ensures error == ErrorOf(Do(old(State()), CreateComment(id, post, author, content)))
    {
      if post !in posts {
        return Some(PostNotFound);
      }
      if !ValidCommentContent(content) {
        return Some(InvalidContent);
      }
      var found := posts[post];
      comments := comments[id := Comment(post, author, content)];
      posts := posts[post := found.IncrementCommentCount()];
      return None;
    }

    method DeleteComment(id: Uuid, user: Uuid) returns (error: Option<PostError>)
      modifies this
      ensures State() == After(old(State()), Call.DeleteComment(id, user))
      ensures error == ErrorOf(Do(old(State()), Call.DeleteComment(id, user)))
    {
      if id !in comments {
        return Some(CommentNotFound);
      }
      var comment := comments[id];
      if comment.author != user {
        return Some(CommentPermission);
      }
      if comment.post in posts {
        posts := posts[comment.post := posts[comment.post].DecrementCommentCount()];
      }
      comments := comments - {id};
      return None;
    }

    method CreatePost(id: Uuid, author: Uuid, content: string, mediaUrls: seq<string>, createdAt: int)
      returns (error: Option<PostError>)
      modifies this
      ensures State() == After(old(State()), Call.CreatePost(id, author, content, mediaUrls, createdAt))
      ensures error == ErrorOf(Do(old(State()), Call.CreatePost(id, author, content, mediaUrls, createdAt)))
    {
      if !ValidPostContent(content) {
        return Some(InvalidContent);
      }
      if id in posts {
        return Some(IntegrityError);
      }
      posts := posts[id := Post(author, content, mediaUrls, 0, 0, true, createdAt)];
      return None;
    }

    method UpdatePost(post: Uuid, user: Uuid, newContent: Option<string>) returns (error: Option<PostError>)
      modifies this
      ensures State() == After(old(State()), Call.UpdatePost(post, user, newContent))
      ensures error == ErrorOf(Do(old(State()), Call.UpdatePost(post, user, newContent)))
    {
      if post !in posts {
        return Some(PostNotFound);
      }
      if posts[post].author != user {
        return Some(PostPermission);
      }
      if newContent.Some? {
        if !ValidPostContent(newContent.value) {
          return Some(InvalidContent);
        }
        posts := posts[post := posts[post].UpdateContent(newContent.value)];
      }
      return None;
    }

    method DeletePost(post: Uuid, user: Uuid) returns (error: Option<PostError>)
      modifies this
      ensures State() == After(old(State()), Call.DeletePost(post, user))
      ensures error == ErrorOf(Do(old(State()), Call.DeletePost(post, user)))
    {
      if post !in posts {
        return Some(PostNotFound);
      }
      if posts[post].author != user {
        return Some(PostPermission);
      }
      posts := posts[post := posts[post].Delete()];
      return None;
    }
  }
}
