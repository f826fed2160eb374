/**
 Two calls that overlap: the second has made its reads and checks before the first commits, and writes after.
 Its post is saved from what it read, all columns together, so what the first wrote to that row is lost.
 */
module PostOverlap {
  import opened Common
  import opened PostStore

  // ---------- a call as its reads and its writes ----------

  /** The post that a call saves, if any; a reaction of another kind saves none, and a new post is an insert. */
  function Saves(db: Db, c: Call): Option<Uuid> {
    match c
    case CreatePost(_, _, _, _, _) => None
    case UpdatePost(p, _, _) => Some(p)
    case DeletePost(p, _) => Some(p)
    case LikePost(p, _) => Some(p)
    case UnlikePost(p, _) => if p in db.posts then Some(p) else None
    case ReactToPost(p, u, _) => if (p, u) in db.reactions then None else Some(p)
    case RemoveReaction(p, _) => if p in db.posts then Some(p) else None
    case CreateComment(_, p, _, _) => Some(p)
    case DeleteComment(id, _) =>
      if id in db.comments && db.comments[id].post in db.posts then Some(db.comments[id].post) else None
  }

  /** What the call makes of the post it read. */
  function Edited(row: Post, c: Call): Post {
    match c
    case CreatePost(_, _, _, _, _) => row
    case UpdatePost(_, _, content) => if content.Some? then row.UpdateContent(content.value) else row
    case DeletePost(_, _) => row.Delete()
    case LikePost(_, _) => row.IncrementLikeCount()
    case UnlikePost(_, _) => row.DecrementLikeCount()
    case ReactToPost(_, _, _) => row.IncrementLikeCount()
    case RemoveReaction(_, _) => row.DecrementLikeCount()
    case CreateComment(_, _, _, _) => row.IncrementCommentCount()
    case DeleteComment(_, _) => row.DecrementCommentCount()
  }

  /** The rows it inserts and deletes. */
  function WithRows(db: Db, c: Call): Db {
    match c
    case CreatePost(id, author, content, media, at) => db.(posts := db.posts[id := Post(author, content, media, 0, 0, true, at)])
    case UpdatePost(_, _, _) => db
    case DeletePost(_, _) => db
    case LikePost(p, u) => db.(likes := db.likes + {(p, u)})
    case UnlikePost(p, u) => db.(likes := db.likes - {(p, u)})
    case ReactToPost(p, u, kind) => db.(reactions := db.reactions[(p, u) := kind])
    case RemoveReaction(p, u) => db.(reactions := db.reactions - {(p, u)})
    case CreateComment(id, p, author, content) => db.(comments := db.comments[id := Comment(p, author, content)])
    case DeleteComment(id, _) => db.(comments := db.comments - {id})
  }

  /** What a call that read `read` leaves when it writes to the tables `now`. */
  function WriteLate(read: Db, now: Db, c: Call): Db {
    var p := Saves(read, c);
    if p.Some? && p.value in read.posts then SavePost(WithRows(now, c), p.value, Edited(read.posts[p.value], c))
    else WithRows(now, c)
  }

  /** With nothing in between, reads and writes make up the call. */
  lemma WritingAtOnceIsTheCall(db: Db, c: Call)
    requires Do(db, c).Success?
    ensures WriteLate(db, db, c) == After(db, c)
  {
    match c
    case UpdatePost(p, _, _) => assert db.posts[p := db.posts[p]] == db.posts;
    case ReactToPost(p, u, kind) => assert (db.reactions - {(p, u)})[(p, u) := kind] == db.reactions[(p, u) := kind];
    case _ =>
  }

  /** Nothing that c checked or branches on has changed: it would go through now, and save the same post. */
  predicate ChecksStillHold(read: Db, now: Db, c: Call) {
    && Do(read, c).Success? && Do(now, c).Success? && FreshId(now, c)
    && Saves(read, c) == Saves(now, c)
  }

  // ---------- what survives ----------

  predicate SetsContent(c: Call) {
    c.UpdatePost? && c.newContent.Some?
  }

  /** Every column in which the row found differs from the row read is one that the call sets anyway. */
  predicate NothingToLose(read: Post, now: Post, c: Call) {
    && now.likeCount == read.likeCount && now.commentCount == read.commentCount
    && (now.content == read.content || SetsContent(c))
    && (now.published == read.published || c.DeletePost?)
  }

  predicate SameButEditable(a: Post, b: Post) {
    a.author == b.author && a.mediaUrls == b.mediaUrls && a.createdAt == b.createdAt
  }

  /** Counters of the edited rows are as far apart as they were, and so is each column the call does not set. */
  lemma EditedRowsCompare(read: Post, now: Post, c: Call)
    requires c.UnlikePost? || c.RemoveReaction? ==> read.likeCount >= 1 && now.likeCount >= 1
    requires c.DeleteComment? ==> read.commentCount >= 1 && now.commentCount >= 1
    requires SameButEditable(read, now) && !c.CreatePost?
    ensures Edited(read, c).likeCount - Edited(now, c).likeCount == read.likeCount - now.likeCount
    ensures Edited(read, c).commentCount - Edited(now, c).commentCount == read.commentCount - now.commentCount
    ensures Edited(read, c) == Edited(now, c) <==> NothingToLose(read, now, c)
  {
  }

  /** The first call has committed, the second read before it and writes after it. */
  function Overlapped(db: Db, first: Call, second: Call): Db {
    WriteLate(db, After(db, first), second)
  }

  predicate MayOverlap(db: Db, first: Call, second: Call) {
    && Consistent(db) && FreshId(db, first) && FreshId(db, second)
    && ChecksStillHold(db, After(db, first), second)
  }

  /** Written late and in turn the rows are the same, and one saved post follows another. */
  lemma LateIsSavedOverSerial(read: Db, now: Db, c: Call, p: Uuid)
    requires ChecksStillHold(read, now, c) && Saves(read, c) == Some(p) && p in read.posts && p in now.posts
    ensures WriteLate(read, now, c) == SavePost(After(now, c), p, Edited(read.posts[p], c))
    ensures p in After(now, c).posts && After(now, c).posts[p] == Edited(now.posts[p], c)
  {
    WritingAtOnceIsTheCall(now, c);
    SavedTwice(WithRows(now, c), p, Edited(now.posts[p], c), Edited(read.posts[p], c));
  }

  lemma OverlapDiffersInOneRow(db: Db, first: Call, second: Call)
    requires MayOverlap(db, first, second)
    ensures var now, p := After(db, first), Saves(db, second);
            && Consistent(now)
            && (p.None? ==> Overlapped(db, first, second) == After(now, second))
            && (p.Some? ==>
                  && p.value in db.posts && p.value in now.posts && SameButEditable(db.posts[p.value], now.posts[p.value])
                  && Overlapped(db, first, second) == SavePost(After(now, second), p.value, Edited(db.posts[p.value], second))
                  && p.value in After(now, second).posts
                  && After(now, second).posts[p.value] == Edited(now.posts[p.value], second))
  {
    var now, p := After(db, first), Saves(db, second);
    CallKeepsConsistent(db, first);
    if p.Some? {
      SavedPostExists(db, second, p.value);
      OnlyAuthorsChangeTheirPosts(db, first, p.value);
      LateIsSavedOverSerial(db, now, second, p.value);
    } else {
      WritingAtOnceIsTheCall(now, second);
    }
  }

  lemma SavedPostExists(db: Db, c: Call, p: Uuid)
    requires Do(db, c).Success? && Saves(db, c) == Some(p)
    ensures p in db.posts
  {
  }

  lemma SavedTwice(db: Db, p: Uuid, a: Post, b: Post)
    ensures SavePost(SavePost(db, p, a), p, b) == SavePost(db, p, b)
  {
  }

  lemma DecrementsFindCounts(db: Db, c: Call, p: Uuid)
    requires Consistent(db) && Do(db, c).Success? && Saves(db, c) == Some(p) && p in db.posts
    ensures c.UnlikePost? || c.RemoveReaction? ==> db.posts[p].likeCount >= 1
    ensures c.DeleteComment? ==> db.posts[p].commentCount >= 1
  {
    ClampNeverActs(db, c);
  }

  lemma SavedRowsCompare(db: Db, first: Call, second: Call)
    requires MayOverlap(db, first, second) && Saves(db, second).Some?
    ensures var now, p := After(db, first), Saves(db, second).value;
            && p in db.posts && p in now.posts
            && Edited(db.posts[p], second).likeCount - Edited(now.posts[p], second).likeCount == db.posts[p].likeCount - now.posts[p].likeCount
            && Edited(db.posts[p], second).commentCount - Edited(now.posts[p], second).commentCount == db.posts[p].commentCount - now.posts[p].commentCount
            && (Edited(db.posts[p], second) == Edited(now.posts[p], second) <==> NothingToLose(db.posts[p], now.posts[p], second))
  {
    var now, p := After(db, first), Saves(db, second).value;
    OverlapDiffersInOneRow(db, first, second);
    DecrementsFindCounts(db, second, p);
    DecrementsFindCounts(now, second, p);
    EditedRowsCompare(db.posts[p], now.posts[p], second);
  }

  /**
   Two overlapping calls leave what they leave one after the other exactly if the first changed no column of
   the post the second saves, other than one the second sets itself.
   */
  lemma OverlapIsSerialExactly(db: Db, first: Call, second: Call)
    requires MayOverlap(db, first, second)
    ensures var now, p := After(db, first), Saves(db, second);
            Overlapped(db, first, second) == After(now, second) <==>
            (p.Some? ==> p.value in db.posts && p.value in now.posts && NothingToLose(db.posts[p.value], now.posts[p.value], second))
  {
    OverlapDiffersInOneRow(db, first, second);
    if Saves(db, second).Some? {
      SavedRowsCompare(db, first, second);
      var d, serial, p := Overlapped(db, first, second), After(After(db, first), second), Saves(db, second).value;
      if d.posts[p] == serial.posts[p] {
        assert serial.posts[p := serial.posts[p]] == serial.posts;
      }
    }
  }

  /** And the counters stay exact exactly if the first moved none of that post's. */
  lemma OverlapKeepsCountersExactly(db: Db, first: Call, second: Call)
    requires MayOverlap(db, first, second)
    ensures var now, p := After(db, first), Saves(db, second);
            Consistent(Overlapped(db, first, second)) <==>
            (p.Some? ==>
               && p.value in db.posts && p.value in now.posts
               && now.posts[p.value].likeCount == db.posts[p.value].likeCount
               && now.posts[p.value].commentCount == db.posts[p.value].commentCount)
  {
    var now := After(db, first);
    OverlapDiffersInOneRow(db, first, second);
    CallKeepsConsistent(now, second);
    if Saves(db, second).Some? {
      SavedRowsCompare(db, first, second);
      OneRowDecides(After(now, second), Saves(db, second).value, Edited(db.posts[Saves(db, second).value], second));
    }
  }

  lemma OneRowDecides(db: Db, p: Uuid, row: Post)
    requires Consistent(db) && p in db.posts
    ensures Consistent(SavePost(db, p, row)) <==>
            row.likeCount == db.posts[p].likeCount && row.commentCount == db.posts[p].commentCount
  {
    var d := SavePost(db, p, row);
    if row.likeCount == db.posts[p].likeCount && row.commentCount == db.posts[p].commentCount {
      CountersFollowRows(db, d, p, 0, 0);
    } else {
      assert LikesOf(d, p) == LikesOf(db, p) && ReactionsOf(d, p) == ReactionsOf(db, p) && CommentsOf(d, p) == CommentsOf(db, p);
      assert d.posts[p] == row;
    }
  }

  // ---------- instances ----------

  /** Two users like a post: both rows are there, one count is lost. */
  lemma OverlappingLikesLoseOne(db: Db, p: Uuid, first: Uuid, second: Uuid)
    requires Consistent(db) && p in db.posts && first != second && (p, first) !in db.likes && (p, second) !in db.likes
    ensures var d := Overlapped(db, LikePost(p, first), LikePost(p, second));
            && d.posts[p].likeCount == |LikesOf(d, p)| + |ReactionsOf(d, p)| - 1
            && d.likes == After(After(db, LikePost(p, first)), LikePost(p, second)).likes
  {
    var liked, d := After(db, LikePost(p, first)), Overlapped(db, LikePost(p, first), LikePost(p, second));
    LikeKeeps(db, p, first);
    KeyAdded(liked.likes, p, second);
    assert |LikesOf(d, p)| == |LikesOf(liked, p)| + 1;
  }

  /** A like that read the post before its deletion publishes it again, and one that read it before an edit restores the old text. */
  lemma LateLikeUndoesItsAuthor(db: Db, p: Uuid, u: Uuid, text: string)
    requires Consistent(db) && p in db.posts && (p, u) !in db.likes && ValidPostContent(text)
    ensures var author := db.posts[p].author;
            && Overlapped(db, DeletePost(p, author), LikePost(p, u)).posts[p].published == db.posts[p].published
            && Overlapped(db, UpdatePost(p, author, Some(text)), LikePost(p, u)).posts[p].content == db.posts[p].content
  {
  }
}
