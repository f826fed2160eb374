# A verified model of the social network's stateful core

The repository is the backend of a social network: FastAPI handlers and use cases over PostgreSQL and
Redis. This project models the parts whose correctness spans several functions and proves what they
keep over whole runs. Database tables are maps and sets of rows, Redis is a set of maps and sorted sets
with a clock, and each handler or use case is one step.

| File | What it models |
|---|---|
| `common.dfy`, `text.dfy` | option and result types; the Python string operations in use |
| `keyset_pagination.dfy`, `cursor_codec.dfy`, `cursor_walk.dfy` | a whole walk of cursor pages over a table that changes meanwhile; the text of a cursor; both together |
| `calendar.dfy`, `uuid_text.dfy` | timestamps as datetimes; the texts of an id |
| `sorted_set.dfy`, `feed_cache.dfy`, `feed_overflow.dfy` | Redis sorted sets; the ranked-feed cache as an online top-200 structure; runs in which it is not |
| `feed_expiry.dfy`, `feed_payloads.dfy` | the time to live of a ranked feed; posts under several texts |
| `friends.dfy` | friend requests, friendships and the two uniqueness constraints |
| `post_store.dfy`, `post_overlap.dfy` | posts with denormalised counters; calls on them that overlap |
| `redis_cache.dfy`, `post_cache.dfy` | the key-value cache; the post handlers over it and the tables |
| `token_revocation.dfy` | access and refresh tokens, their expiry, and the blacklist |
| `rate_limiter.dfy` | the windowed request counter |
| `conversations.dfy` | the conversation list against the flat unread count |
| `feed_ranking.dfy` | scoring, the stable sort and the slice |
| `range_streaming.dfy` | range headers and the chunk loops |
| `unit_of_work.dfy` | sessions of the unit of work when it is entered twice |

Objects whose methods change state are classes (`FriendService`, `PostDatabase`, `Cache`,
`RankedFeedCache`, ...). Each of their methods is proved equal to a function of the old state, and the
theorems about whole runs are proved about those functions. The methods of `PostDatabase` (one per use
case of posts, likes, reactions and comments) and four of `PostHandlers` state nothing beyond that and
have no row below.

Where the code and what is written about it disagree, the model follows the code, and a lemma says
exactly how far the promise holds:

- `docs/API.md` and the docstring of the rate limiter speak of a sliding window. The code counts in
  aligned windows: twice the limit gets through around a boundary (`BurstsAcrossABoundary`), and the
  sliding promise holds only for a limit of zero (`SlidesExactlyWhenShut`).
- `docs/ARCHITECTURE.md` says that a refresh blacklists the old token. The code does not
  (`RefreshDoesNotRotate`).
- A comment in the send use case says that it checks both directions for an existing request. A settled request in
  the sender's own direction hides the other one and passes; only the uniqueness constraint stops the
  insert (`ConstraintCoversTheUncheckedDirection`).
- Logout's lifetimes are constants said to match the configured ones. Revocation is final if and only
  if the configured ones are no longer (`RevocationIsFinalExactly`).
- The feed endpoint says that it takes a limit of 1 to 50. On a cache hit the limit is not clamped, and one below
  1 counts from the far end of the set (`UnclampedLimit`).
- The ranked cache keeps the best 200 only as long as no score is lowered below a trimmed one, and no
  removal makes room for a trimmed post (`TopThroughoutExactly`; `LoweringLosesTheTop` and
  `RemovalLosesTheTop` are the runs in which it does not).
- The ranked cache is described with a time to live of 5 minutes. A key that a fan-out makes has none, and
  small reads never refresh it (`KeyExpiresExactly`, `FannedOutFeedIsNeverRefreshed`).
- Updated and deleted posts are to be removed from all feeds. The sweep compares the text of the path with the
  ids in the payloads, and so misses them under any other spelling (`SweepReachesThePostExactly`).
- A post can be in a feed twice, once as served and once as fanned out (`FanOutRepeatsAServedPost`).
- Saving a post writes all its columns as they were read, so an overlapping call loses what the other wrote
  (`OverlapIsSerialExactly`).
- The scorer subtracts creation times from a time without a zone. That fails for every creation time that
  carries one, as those of the database do (`RankingSucceedsExactly`).
- The comment handlers leave the cached post alone, so its comment count goes stale
  (`CommentLeavesHitStale`, `ServedIsCurrentExactly`).
- The post cache is keyed by the text of the path, the database by the id it is read as. Another spelling of
  an id (without hyphens, in upper case) is another key, which the handlers do not delete
  (`LikeLeavesOtherSpellingStale`, `CoherentExactly`).
- Tokens carry whole seconds: logging out and in again within one second hands out the revoked tokens
  (`QuickReturnIsRefused`).
- A message page of size zero or -1 announces a next page without a cursor to it (`NextComesWithACursorExactly`).
- The rate limiter takes 32 characters of a token for a stable key of its user. They are the same for every
  token of the service (`AllUsersShareOneBudget`).
- A use case that enters the unit of work its handler has already entered commits another session than the
  repository writes to (`UnitOfWork.SqlAlchemyUnitOfWork.Handle`).

## Model

| member | source | states |
|---|---|---|
| `KeysetPagination.DescendingIsUnique` | src/fb/infrastructure/repositories/feed_repo.py:122 | ordering by (created_at, id) descending determines the list: two strictly descending lists of the same keys are equal |
| `KeysetPagination.RowsBelow` | src/fb/infrastructure/repositories/feed_repo.py:113-120 | the rows below the n-th row's cursor are exactly the rows after the n-th |
| `KeysetPagination.PageAndRest` | src/fb/infrastructure/repositories/feed_repo.py:122-138 | a page followed by what lies below its end cursor is all that lay below the cursor before; there is a next page exactly if something is left |
| `KeysetPagination.PageItems` | src/fb/infrastructure/repositories/feed_repo.py:122-138 | a page descends, holds visible rows below the cursor only, and its start and end cursors are its greatest and least item |
| `KeysetPagination.WalkDescends` | src/fb/infrastructure/repositories/feed_repo.py:104-138 | however the table changes between fetches, the walk descends strictly, so no key comes twice |
| `KeysetPagination.WalkReturnsVisible` | src/fb/infrastructure/repositories/feed_repo.py:104-138 | every returned key was visible at one of the fetches made |
| `KeysetPagination.WalkMissesNothing` | src/fb/infrastructure/repositories/feed_repo.py:104-138 | a walk that reached its last page returned every key present at each of its fetches |
| `KeysetPagination.QuietWalkIsTheList` | src/fb/infrastructure/repositories/feed_repo.py:113-138 | without changes below the cursor the pages concatenate to the whole descending list |
| `KeysetPagination.QuietWalkEnds` | src/fb/infrastructure/repositories/feed_repo.py:122-138 | and the walk ends after exactly as many fetches as the rows fill pages |
| `KeysetPagination.PagesForRoundsUp` | src/fb/infrastructure/repositories/feed_repo.py:122-127 | that number is the rows divided by the page size, rounded up |
| `KeysetPagination.QuietWalkReturnsTheTotal` | src/fb/infrastructure/repositories/feed_repo.py:129-149 | the announced total count is the number of items a full walk over an unchanged table returns |
| `KeysetPagination.NewRowsDoNotDisturb` | src/fb/infrastructure/repositories/feed_repo.py:104-138 | while rows are only added above those of the first fetch, the walk ends and gives exactly the first fetch's table in order |
| `KeysetPagination.ConversationReadsAsItStood` | src/fb/infrastructure/repositories/message_repo.py:60-100 | paging through a conversation that goes on gives exactly its messages at the first fetch, newest first, for any page size from 1 |
| `KeysetPagination.ConversationHoldsExactly` | src/fb/infrastructure/repositories/message_repo.py:67-78 | and what it gives are exactly the messages whose sender and receiver are the two users, each with its own id and time |
| `KeysetPagination.FeedReturnsNoPostTwice` | src/fb/application/post/get_feed.py:130-142 | with posts inserted, edited and unpublished and users followed and unfollowed between fetches, for any requested page size, no post comes twice |
| `KeysetPagination.FeedReturnsEveryLastingPost` | src/fb/application/post/get_feed.py:130-142 | a walk that ended returned every post that matched at each fetch, by an author followed at each fetch, exactly once |
| `KeysetPagination.FeedReturnsOnlyMatchingPosts` | src/fb/infrastructure/repositories/feed_repo.py:105-110 | whatever a walk returns was, at one of its fetches, a published post of an author followed at that fetch, with its own id and time |
| `KeysetPagination.FeedGoesBackInTime` | src/fb/infrastructure/repositories/feed_repo.py:122 | a walk goes back in time, and among posts of one time down in their ids |
| `KeysetPagination.ZeroPageNeverAdvances` | src/fb/infrastructure/repositories/message_repo.py:92-114 | a message page of size 0 is empty, has no end cursor, and claims a next page exactly if there are rows |
| `KeysetPagination.NextComesWithACursorExactly` | src/fb/infrastructure/repositories/message_repo.py:92-114 | for any integer size: the query is refused exactly below -1, and an announced next page comes with the cursor to it if and only if the size is positive, or zero with nothing to page |
| `KeysetPagination.NegativePageAlwaysAnnounces` | src/fb/infrastructure/repositories/message_repo.py:92-114 | at size -1 a page is empty, has no cursor, and announces a next one whatever there is |
| `Text.StripExactly` | src/fb/domain/post/value_objects.py:11 | what strip takes off is white space, at both ends |
| `Text.StripEnds` | src/fb/domain/post/value_objects.py:11 | and it leaves none at either end |
| `Text.BlankExactly` | src/fb/domain/post/value_objects.py:11 | a content counts as blank exactly if stripping leaves nothing |
| `Common.ClampPageSize` | src/fb/application/post/get_feed.py:133 | any requested size becomes the nearest one in 1..50 |
| `CursorCodec.Base64RoundTrip` | src/fb/domain/shared/pagination.py:29-34 | base64url decoding undoes encoding on all byte strings |
| `CursorCodec.EncodedLength` | src/fb/domain/shared/pagination.py:29 | base64url makes four characters of each three bytes begun, and pads only an incomplete last group |
| `CursorCodec.CharsAreUrlSafe` | src/fb/domain/shared/pagination.py:29 | the characters are letters, digits, hyphens and underscores |
| `CursorCodec.Examples64` | src/fb/domain/shared/pagination.py:29 | the examples of section 10 of RFC 4648 for one and two bytes |
| `CursorCodec.FullExamples64` | src/fb/domain/shared/pagination.py:29 | and for three, and one that ends the alphabet |
| `CursorCodec.Utf8RoundTrip` | src/fb/domain/shared/pagination.py:29-34 | UTF-8 decoding undoes encoding on all strings |
| `CursorCodec.ExamplesUtf8` | src/fb/domain/shared/pagination.py:29 | one character of each encoded length, byte for byte |
| `CursorCodec.IsoRoundTrip` | src/fb/domain/shared/pagination.py:28-36 | fromisoformat undoes isoformat on every valid datetime, with or without microseconds and UTC offset |
| `CursorCodec.DateAndClockLayout` | src/fb/domain/shared/pagination.py:28 | digit by digit where year, month, day, hour, minute and second stand in the text, and that microseconds stand there exactly if there are any |
| `CursorCodec.UtcIsWritten` | src/fb/domain/shared/pagination.py:28 | UTC is written +00:00, and an offset of three and a half hours west -03:30 |
| `CursorCodec.LeapYears` | src/fb/domain/shared/pagination.py:36 | which months have 31 days, and which Februaries 29 |
| `CursorCodec.LastSplitFinds` | src/fb/domain/shared/pagination.py:35 | splitting at the last separator finds the two parts when the second has none |
| `CursorCodec.CursorRoundTripsExactly` | src/fb/domain/shared/pagination.py:26-36 | a cursor decodes to the timestamp and id it was made of if and only if the id has no colon |
| `CursorCodec.CursorsAreDistinct` | src/fb/domain/shared/pagination.py:26-29 | cursors of colon-free ids are equal only if timestamp and id are, and none is empty |
| `CursorWalk.CursorsReadBack` | src/fb/infrastructure/repositories/feed_repo.py:113-120 | the key that a request's cursor is compared as is the key of the row it was made from |
| `CursorWalk.EmptyCursorIsTheFirstPage` | src/fb/infrastructure/repositories/feed_repo.py:113-145 | an empty cursor gives the first page as no cursor does, but says that there is a page before |
| `CursorWalk.TextWalkIsKeyWalk` | src/fb/infrastructure/repositories/feed_repo.py:104-149 | a client sending cursor text back gathers what the walk over keys gathers; no cursor handed out is refused or misread |
| `CursorWalk.RenderingIsFaithful` | src/fb/infrastructure/repositories/feed_repo.py:137-138 | a UTC timestamp of the calendar and a 128-bit id, written as isoformat and str do, read back as the same key |
| `CursorWalk.ClientsWalkOverKeys` | src/fb/infrastructure/repositories/feed_repo.py:104-149 | so with this rendering, for any rows a database can hold, walking by cursor text is walking by key |
| `Calendar.OrdinalOfDate` | src/fb/infrastructure/database/models/post.py:22 | counting n days on from the first of January of year 1 gives a valid date, and its day number is n |
| `Calendar.YearLength` | src/fb/infrastructure/database/models/post.py:22 | a year has 337 days and its February |
| `Calendar.DateTimeReadsBack` | src/fb/infrastructure/database/models/post.py:22 | the UTC datetime of a timestamp is valid and denotes that timestamp, to the microsecond |
| `Calendar.OffsetsShiftTheInstant` | src/fb/infrastructure/repositories/feed_repo.py:117-118 | the same clock with an offset east of Greenwich denotes an earlier instant, west of it a later one |
| `UuidText.CanonicalReadsBack` | src/fb/domain/shared/entity_id.py:15-20 | the text of an id reads back as the id and has no colon |
| `UuidText.CanonicalShape` | src/fb/domain/shared/entity_id.py:19-20 | 36 characters, hyphens in four places, lower-case hexadecimal digits elsewhere |
| `UuidText.CanonicalInBraces` | src/fb/domain/shared/entity_id.py:16 | the id is also read in braces and after a URN prefix |
| `UuidText.CapitalsCount` | src/fb/domain/shared/entity_id.py:16 | capital digits count as small ones |
| `UuidText.EveryIdHasTwoSpellings` | src/fb/domain/shared/entity_id.py:16 | the digits without hyphens are read as the same id and are another text |
| `SortedSets.ZAddElements` | src/fb/infrastructure/cache/feed_cache.py:119 | ZADD keeps the set sorted and free of duplicate members, holding the new entry and all entries of other members |
| `SortedSets.LexLessExactly` | src/fb/infrastructure/cache/feed_cache.py:99 | of equal scores the member is lower that is a beginning of the other or has the smaller character where they first differ |
| `SortedSets.RemoveLowestLeavesTop` | src/fb/infrastructure/cache/feed_cache.py:121 | ZREMRANGEBYRANK 0 -(k+1) leaves exactly the k highest entries |
| `SortedSets.RevRangeTakesFromTop` | src/fb/infrastructure/cache/feed_cache.py:71 | ZREVRANGE 0 limit-1 takes limit entries from the top; below 1 it counts from the far end |
| `FeedCache.TopIsUnique` | src/fb/infrastructure/cache/feed_cache.py:100-102 | scores determine the set of their k highest |
| `FeedCache.PutKeepsTopExactly` | src/fb/infrastructure/cache/feed_cache.py:117-122 | a trimmed write leaves the k highest of everything written if and only if it does not lower a stored member below a trimmed one |
| `FeedCache.StoredIsBounded` | src/fb/infrastructure/cache/feed_cache.py:79-176 | no run of writes and removals stores more than 200 entries or a member twice |
| `FeedCache.StoredIsTopOfWritten` | src/fb/infrastructure/cache/feed_cache.py:79-176 | a run of sets, prepends, removals and expiries stores exactly the 200 highest, by score then member, of what was written and not removed, if since the last set no prepend lowered a score and each removal took nothing or left nothing that had been trimmed |
| `FeedCache.OnlineTrimIsOfflineTrim` | src/fb/infrastructure/cache/feed_cache.py:79-176 | in such a run trimming at each write equals trimming once at the end |
| `FeedCache.TopThroughoutExactly` | src/fb/infrastructure/cache/feed_cache.py:79-176 | a run holds the 200 highest after every single write if and only if each prepend and each removal meets its own exact condition |
| `FeedOverflow.LoweringLosesTheTop` | src/fb/infrastructure/cache/feed_cache.py:108-124 | after more than 200 ascending prepends, a run in order so far, writing a stored post again with a low score leaves a set that is neither the top of what was written nor what one trim at the end leaves |
| `FeedOverflow.RemovalLosesTheTop` | src/fb/infrastructure/cache/feed_cache.py:150-176 | after the same run, removing a stored post does so too |
| `FeedOverflow.AscendingIsOrderly` | src/fb/infrastructure/cache/feed_cache.py:117-121 | n prepends of n posts with rising scores are in order and write n members |
| `FeedExpiry.ExpiryIsDrop` | src/fb/infrastructure/cache/feed_cache.py:79-124 | with the clock, a key holds what the run of writes leaves that has a drop wherever a command found the key expired; so all results on runs hold with expiry |
| `FeedExpiry.KeyExpiresExactly` | src/fb/infrastructure/cache/feed_cache.py:103-122 | a key has no expiry if and only if a prepend made it and the feed was not set since; any other expires 300 seconds after the feed was last set |
| `FeedExpiry.SetFeedLastsFiveMinutes` | src/fb/infrastructure/cache/feed_cache.py:79-103 | a feed that is set is there exactly until 300 seconds later |
| `FeedExpiry.StaysPersistentExactly` | src/fb/presentation/rest/v1/feed.py:35-73 | a key without expiry stays one under a request, at any time, if and only if the request is no read that sets the feed anew and no sweep of its last post |
| `FeedExpiry.FannedOutFeedIsNeverRefreshed` | src/fb/presentation/rest/v1/feed.py:35-44 | a feed that a fan-out started answers every read of 1 to 20 posts from the cache for ever, however many such reads and fan-outs come and whenever |
| `FeedCache.ServedOrderIsReplayed` | src/fb/presentation/rest/v1/feed.py:56-73 | with a clock that does not run back, reading the cache right after a served feed was stored gives its first posts in served order |
| `FeedCache.RankedTakesFromTop` | src/fb/infrastructure/cache/feed_cache.py:71-74 | a ranked read takes min(limit, stored) members from the top, for a limit below 1 all but the last -limit, and is a miss if that is nothing |
| `FeedCache.UnclampedLimit` | src/fb/presentation/rest/v1/feed.py:36-44 | a cached answer has at most max(limit, 1) posts if and only if the limit is positive or too little is stored |
| `FeedCache.PutTwice` | src/fb/infrastructure/cache/feed_cache.py:140-143 | writing an entry again changes nothing |
| `FeedCache.PrependEachIsPerTarget` | src/fb/infrastructure/cache/feed_warmer.py:30-41 | fan-out does to each target's feed what one prepend does, and nothing to others |
| `FeedCache.PrependEachKeepsValid` | src/fb/infrastructure/cache/feed_cache.py:139-144 | fan-out creates keys for exactly its targets and keeps every set sorted and within 200 |
| `FeedCache.FanOutOrderIsIrrelevant` | src/fb/infrastructure/cache/feed_cache.py:139-144 | order and repetition of the targets do not matter |
| `FeedCache.SweepRemovesExactlyThePost` | src/fb/infrastructure/cache/feed_cache.py:150-176 | after the removal no feed holds the post and every other entry of every feed is unchanged |
| `FeedPayloads.SweepReachesThePostExactly` | src/fb/presentation/rest/v1/posts.py:308 | with payloads that carry canonical ids, a sweep for a text read as the id removes the post from all feeds if and only if the text is the canonical one or no feed held it; any other text changes no feed |
| `FeedPayloads.BareDigitsSweepNothing` | src/fb/presentation/rest/v1/posts.py:343 | so a sweep for the id without hyphens removes nothing |
| `FeedPayloads.ReadsShowEachOnceExactly` | src/fb/infrastructure/cache/feed_cache.py:71-74 | reads of a set show no post id twice, for any limit, if and only if no two stored members carry one id |
| `FeedPayloads.StoredWasWritten` | src/fb/infrastructure/cache/feed_cache.py:79-176 | over any run whatever is stored was written, with the score it was last written with |
| `FeedPayloads.OnePayloadWrittenSuffices` | src/fb/infrastructure/cache/feed_cache.py:79-176 | a run that writes each post under one payload has no read that shows a post twice |
| `FeedPayloads.FanOutRepeatsAServedPost` | src/fb/presentation/rest/v1/posts.py:204-213 | a post that is served and stored before its fan-out arrives is in the feed twice after it, since the two writers write its time differently |
| `FeedPayloads.TimesAreWrittenApart` | src/fb/application/post/get_feed.py:183 | str and isoformat differ on every datetime |
| `FeedCache.RemovalKeepsTopExactly` | src/fb/infrastructure/cache/feed_cache.py:163-174 | the removal leaves the top k of the remaining scores if and only if it removed nothing or nothing remaining had been trimmed |
| `FeedCache.RankedFeedCache.GetRankedFeed` | src/fb/infrastructure/cache/feed_cache.py:64-77 | for a positive limit the first min(limit, stored) members from the highest score down, and a miss exactly if the key does not exist; for any limit the specified read |
| `FeedCache.RankedFeedCache.SetRankedFeed` | src/fb/infrastructure/cache/feed_cache.py:79-106 | replaces one user's set by the trimmed list, leaves it for an empty list, and keeps all sets valid |
| `FeedCache.RankedFeedCache.PrependToFeed` | src/fb/infrastructure/cache/feed_cache.py:108-124 | one trimmed write to one user's set |
| `FeedCache.RankedFeedCache.BatchPrependToFeeds` | src/fb/infrastructure/cache/feed_cache.py:126-148 | the pipeline equals prepending to each target in turn |
| `FeedCache.RankedFeedCache.FanOutNewPost` | src/fb/infrastructure/cache/feed_warmer.py:16-41 | the author's feed always gets the post, the friends' feeds exactly up to 500 friends, other feeds never |
| `FeedCache.RankedFeedCache.RemovePostFromFeeds` | src/fb/infrastructure/cache/feed_cache.py:150-176 | whatever batches SCAN returns, the sweep equals removing the post from every feed at once |
| `FeedCache.RankedFeedCache.RemoveFromKeys` | src/fb/infrastructure/cache/feed_cache.py:162-174 | one batch of keys, with repetitions, removes the post from exactly those feeds |
| `FeedCache.RankedFeedCache.RemoveFromKey` | src/fb/infrastructure/cache/feed_cache.py:164-174 | the collected members are exactly the post's entries, payloads that do not parse are kept, an emptied key disappears |
| `FeedCache.Trim` | src/fb/infrastructure/cache/feed_cache.py:121 | the trimming command leaves the 200 highest entries |
| `FeedCache.ZAddMapping` | src/fb/infrastructure/cache/feed_cache.py:98-99 | adding a whole mapping equals adding its entries in order |
| `Friends.SendSucceedsExactly` | src/fb/application/friend/send_request.py:28-57 | a send succeeds if and only if the two are different, no friends, its direction is unused and the other direction unused or settled |
| `Friends.ConstraintCoversTheUncheckedDirection` | src/fb/application/friend/send_request.py:41-56 | the uniqueness constraint, and not a check, stops a send exactly when its own direction holds a settled request and they are no friends |
| `Friends.AcceptNeverViolatesUniqueness` | src/fb/application/friend/accept_request.py:27-51 | accepting never hits the friendship constraint; it succeeds exactly for the receiver of a pending request and adds exactly the two rows |
| `Friends.SendErrorsExactly` | src/fb/application/friend/send_request.py:33-50 | which error a send has: itself, friends, or a request pending between the two, unless its own direction was settled |
| `Friends.SendAsks` | src/fb/application/friend/send_request.py:53-57 | a send that goes through leaves one more request, pending from sender to receiver, and all else as it was |
| `Friends.AcceptSettles` | src/fb/application/friend/accept_request.py:27-51 | after an accept the request is accepted, the two are friends, none is pending between them, nothing else changed, and nobody can decide it again |
| `Friends.RejectSettles` | src/fb/application/friend/reject_request.py:26-42 | a reject succeeds exactly for the receiver of a pending request; then it is rejected, none is pending between the two, nothing else changed, and nobody can decide it again |
| `Friends.UnfriendParts` | src/fb/application/friend/unfriend.py:25-32 | friends can be parted by either and nobody else; exactly the two rows go |
| `Friends.SendKeepsConsistent` | src/fb/application/friend/send_request.py:36-57 | a send that goes through leaves both tables consistent |
| `Friends.AcceptKeepsConsistent` | src/fb/application/friend/accept_request.py:27-51 | so does an accept |
| `Friends.RejectKeepsConsistent` | src/fb/application/friend/reject_request.py:26-42 | so does a reject |
| `Friends.UnfriendKeepsConsistent` | src/fb/infrastructure/repositories/friend_repo.py:77-92 | so does an unfriend |
| `Friends.AfterKeepsConsistent` | src/fb/infrastructure/database/models/friend.py:16-19 | every call keeps: unique directions, one pending request per pair, none between friends, symmetric irreflexive friendships, an accepted request behind each |
| `Friends.Run` | src/fb/application/friend/send_request.py:28-57 | every state reachable by any calls is consistent in all five respects |
| `Friends.OverlappingSendsExactly` | src/fb/application/friend/send_request.py:36-57 | from any consistent tables, of two sends whose checks both pass before either inserts, the second insert goes through exactly if ids and directions differ, and then the one-pending rule (and all of consistency) holds if and only if they do not meet head on |
| `Friends.StaleRejectExactly` | src/fb/application/friend/reject_request.py:26-42 | a reject that read the request before an accept wrote it leaves two friends with an accepted request if and only if another one between them was accepted |
| `Friends.OverlappingSendsLeaveTwoPending` | src/fb/application/friend/send_request.py:36-57 | two users who ask each other at once, from empty tables, leave two pending requests |
| `Friends.NobodyIsEverBlocked` | src/fb/application/friend/send_request.py:46-48 | no reachable state has a blocked request, so that error never arises |
| `Friends.SettledRequestsAreFinal` | src/fb/application/friend/reject_request.py:32-40 | accepted and rejected requests never change, and no request row disappears or changes its two users |
| `Friends.AtMostTwoRowsPerPair` | src/fb/infrastructure/database/models/friend.py:17 | an unordered pair has at most two request rows |
| `Friends.AcceptedRowsGrowByBefriending` | src/fb/application/friend/accept_request.py:40-49 | a pair's accepted requests grow by one exactly when a call befriends it |
| `Friends.FriendshipChangesByCall` | src/fb/application/friend/unfriend.py:21-32 | a pair becomes friends only by an accept and stops only by an unfriend, and then really does |
| `Friends.FriendshipLedger` | src/fb/application/friend/accept_request.py:32-49 | over any run a pair is befriended once per accepted request, at most twice, and is friends now exactly if befriended once more than separated |
| `Friends.MutualFriendsAreOthers` | src/fb/infrastructure/repositories/friend_repo.py:134-152 | mutual friends are exactly the friends of both, the same seen from either side, and neither of the two |
| `Friends.MutualFriendsExactly` | src/fb/infrastructure/repositories/friend_repo.py:137-152 | in any tables, mutual friends are the friends named in rows of both users |
| `Friends.FriendService.SendRequest` | src/fb/application/friend/send_request.py:28-64 | keeps all five invariants, and tables and error are those of the specified send |
| `Friends.FriendService.AcceptRequest` | src/fb/application/friend/accept_request.py:23-58 | keeps all five invariants; inserting the two rows one after the other never meets a constraint |
| `Friends.FriendService.RejectRequest` | src/fb/application/friend/reject_request.py:22-49 | keeps all five invariants; tables and error are those of the reject that RejectSettles describes |
| `Friends.FriendService.UnfriendUser` | src/fb/application/friend/unfriend.py:21-32 | keeps all five invariants and every request; both rows of the friendship go or neither |
| `PostStore.CallKeepsConsistent` | src/fb/domain/post/entities.py:27-43 | every use case, failed or not, keeps each post's like_count equal to its likes plus reactions, its comment_count to its comments, and every row's post in place |
| `PostStore.LikeKeeps` | src/fb/application/post/like_post.py:28-49 | a like keeps all counters exact |
| `PostStore.UnlikeKeeps` | src/fb/application/post/unlike_post.py:26-41 | so does an unlike |
| `PostStore.ReactKeeps` | src/fb/application/post/react_post.py:29-56 | so does a reaction, new or of another kind |
| `PostStore.UnreactKeeps` | src/fb/application/post/remove_reaction.py:26-40 | so does removing one |
| `PostStore.CommentKeeps` | src/fb/application/post/create_comment.py:27-47 | so does a comment |
| `PostStore.UncommentKeeps` | src/fb/application/post/delete_comment.py:26-45 | so does deleting one |
| `PostStore.CreateKeeps` | src/fb/domain/post/entities.py:23-25 | a new post starts with exact counters |
| `PostStore.UpdateKeeps` | src/fb/application/post/update_post.py:31-42 | a content update keeps all counters exact |
| `PostStore.SoftDeleteKeeps` | src/fb/application/post/delete_post.py:30-35 | so does soft deletion |
| `PostStore.ClampNeverActs` | src/fb/domain/post/entities.py:33-40 | in a consistent database every decrement finds its post and a positive counter, so the clamp at zero never takes effect |
| `PostStore.CreatesExactly` | src/fb/application/post/create_post.py:19-36 | a post is created exactly with content that is not blank and at most 5000 characters long, and is then there as given, published, nothing counted |
| `PostStore.UpdatesExactly` | src/fb/application/post/update_post.py:23-39 | exactly the author can edit, to valid content, and then that is the content; without content nothing changes |
| `PostStore.DeletesExactly` | src/fb/application/post/delete_post.py:22-32 | exactly the author can delete, and then the post is there unpublished |
| `PostStore.LikesExactly` | src/fb/application/post/like_post.py:28-42 | a like succeeds exactly without one and leaves one, an unlike exactly with one and leaves none; with the errors |
| `PostStore.ReactionsExactly` | src/fb/application/post/react_post.py:34-54 | a reaction succeeds exactly if it is not the one that is there, and is there afterwards; a removal exactly if there is one |
| `PostStore.CommentsExactly` | src/fb/application/post/delete_comment.py:26-42 | a comment is taken exactly with content of at most 2000 characters and is there as given; exactly its author can delete it |
| `PostStore.MissingPostsAreNotFound` | src/fb/application/post/like_post.py:28-31 | on a post that is not there likes, reactions, comments, edits and deletions are refused as not found |
| `PostStore.CountersExactInEveryRun` | src/fb/application/post/react_post.py:29-56 | counters are exact in every state of every serial run |
| `PostStore.UnlikeUndoesLike` | src/fb/application/post/unlike_post.py:26-41 | like then unlike restores every table, but for the updated_at of the one post, which is the time of the unlike |
| `PostStore.RemovalUndoesFirstReaction` | src/fb/application/post/remove_reaction.py:26-40 | first reaction then removal restores every table, but for the updated_at of the one post |
| `PostStore.OnlyOwnersChangeTheirRows` | src/fb/application/post/delete_comment.py:31-33 | likes, reactions and comments change only by calls of the user they belong to |
| `PostStore.OnlyAuthorsChangeTheirPosts` | src/fb/application/post/update_post.py:27-29 | a post stays; its text and visibility change only by its author's call, and no call publishes it again |
| `PostOverlap.WritingAtOnceIsTheCall` | src/fb/infrastructure/repositories/post_repo.py:49-62 | with nothing in between, the reads and writes of a call make up the call |
| `PostOverlap.OverlapIsSerialExactly` | src/fb/infrastructure/repositories/post_repo.py:49-62 | for any two calls of which the second reads before the first commits and writes after it, its checks still holding, the tables are those of the serial run if and only if the first changed no column of the post the second saves, but ones the second sets itself |
| `PostOverlap.OverlapKeepsCountersExactly` | src/fb/infrastructure/repositories/post_repo.py:56-60 | and they stay consistent if and only if the first moved neither counter of that post |
| `PostOverlap.OverlapDiffersInOneRow` | src/fb/infrastructure/repositories/post_repo.py:56-60 | of that post every column the second does not set is as the second read it; all other rows are those of the serial run |
| `PostOverlap.OverlappingLikesLoseOne` | src/fb/application/post/like_post.py:28-49 | two overlapping likes leave both rows and a count one too low |
| `PostOverlap.LateLikeUndoesItsAuthor` | src/fb/application/post/like_post.py:28-49 | a like that read the post before its deletion publishes it again, before an edit restores the old text |
| `RedisCache.DeletionsAddUp` | src/fb/infrastructure/cache/redis_cache.py:64-74 | the counts of batches of deletions add up to the count of deleting all their keys at once |
| `RedisCache.Cache.Get` | src/fb/infrastructure/cache/redis_cache.py:28-37 | a value is found exactly while its key is live |
| `RedisCache.Cache.Set` | src/fb/infrastructure/cache/redis_cache.py:39-48 | the key holds the value for its time to live, other keys are unchanged |
| `RedisCache.Cache.Delete` | src/fb/infrastructure/cache/redis_cache.py:50-55 | exactly the one key goes |
| `RedisCache.Cache.DeleteKeys` | src/fb/infrastructure/cache/redis_cache.py:70-71 | exactly the given keys go, and the count is how many of them were live, however often repeated |
| `RedisCache.Cache.DeletePattern` | src/fb/infrastructure/cache/redis_cache.py:57-74 | for any batches SCAN may return, exactly the live matching keys go, and the result is their number |
| `RedisCache.Cache.MGet` | src/fb/infrastructure/cache/redis_cache.py:79-99 | one answer per key in the order asked |
| `PostCache.NextKeepsCoherent` | src/fb/presentation/rest/v1/posts.py:262-309 | a step keeps every cached post equal to its row but for the comment count, unless it writes to a post cached under another spelling |
| `PostCache.OtherStepsMoveCommentsOnly` | src/fb/presentation/rest/v1/posts.py:381-440 | a step whose handler deletes no key of a post, under any spelling, changes at most its comment count |
| `PostCache.RunsStayCoherent` | src/fb/presentation/rest/v1/posts.py:262-309 | in every run whose paths spell each id in one way, each cached post agrees with its row on every field but the comment count |
| `PostCache.CoherentExactly` | src/fb/infrastructure/cache/keys.py:31-32 | all runs over a set of path texts stay coherent if and only if no two of the texts are read as one id |
| `PostCache.LikeLeavesOtherSpellingStale` | src/fb/presentation/rest/v1/posts.py:465 | reading a post under one spelling and liking it under another leaves the first serving a like count one too low, with the right comment count |
| `PostCache.EditLeavesOtherSpellingStale` | src/fb/presentation/rest/v1/posts.py:288-346 | after an accepted edit or deletion another spelling still serves what it did; that differs from the row if and only if the unit of work is entered once and the write changes something |
| `PostCache.CanonicalTextsStayCoherent` | src/fb/domain/shared/entity_id.py:15-20 | with ids read as uuid.UUID does, runs over the texts that str() writes stay coherent |
| `PostCache.OtherTextsDoNot` | src/fb/domain/shared/entity_id.py:16 | runs over all texts that are read as ids do not |
| `PostCache.ServedIsCurrentExactly` | src/fb/presentation/rest/v1/posts.py:262-285 | in every run, if since the served post was read no handler wrote to it under another spelling, it is the current row if and only if as many comments on it were deleted as created since, and its comment count is off by exactly the difference |
| `PostCache.CommentsMoveByEvents` | src/fb/presentation/rest/v1/posts.py:381-440 | between any two moments of a run a post's comment rows grow by the comments created less those deleted |
| `PostCache.OneSpellingSuffices` | src/fb/presentation/rest/v1/posts.py:262-309 | a run that spells each id in one way never writes under another spelling |
| `PostCache.InvalidatingHandlersAreReadBack` | src/fb/presentation/rest/v1/posts.py:308-309 | the GET after an invalidating handler, spelled as it was, shows the row; a like or a first reaction shows one more |
| `PostCache.EditsAreReadBackExactly` | src/fb/presentation/rest/v1/posts.py:288-346 | an accepted edit or deletion shows in the next GET of the same spelling if and only if its use case does not enter the unit of work again, or there was nothing to change |
| `PostCache.HandlersDoTheirWork` | src/fb/presentation/rest/v1/posts.py:443-569 | each route does what its name says to the post that its path spells, for the user who asks: the like, reaction or comment is there, or gone, afterwards, and edits and deletions are their author's |
| `PostCache.CommentLeavesHitStale` | src/fb/presentation/rest/v1/posts.py:381-415 | a comment on a cached post leaves the served count one behind |
| `PostCache.UncommentLeavesHitStale` | src/fb/presentation/rest/v1/posts.py:418-440 | deleting a comment on a cached post leaves the served count one too high |
| `PostCache.ServedIsRecent` | src/fb/infrastructure/cache/keys.py:17 | in every run, under every spelling, what a GET serves is the row as it was at some moment of the last 120 seconds |
| `PostCache.ServedIsThePost` | src/fb/presentation/rest/v1/posts.py:274-283 | in every run a served view has the id that the path spells, and the author, first picture and creation time that the row of that post has now |
| `PostCache.GetsAreRefusedExactly` | src/fb/presentation/rest/v1/posts.py:262-271 | in every run a GET is refused exactly for a text that is no id or an id of no post |
| `PostCache.CacheHoldsPastRows` | src/fb/presentation/rest/v1/posts.py:262-285 | every cache entry is what an earlier GET of the same text read, unchanged since, expiring 120 seconds after it |
| `PostCache.PostHandlers.Get` | src/fb/presentation/rest/v1/posts.py:256-286 | answer and new world are those of the specified GET: the cache by text first, then the row by id |
| `PostCache.PostHandlers.Update` | src/fb/presentation/rest/v1/posts.py:288-324 | on success only, the key as spelled is deleted; the edit lasts only with a unit of work entered once |
| `PostCache.PostHandlers.Delete` | src/fb/presentation/rest/v1/posts.py:325-346 | on success only, the key as spelled is deleted; the deletion lasts only with a unit of work entered once |
| `PostCache.PostHandlers.Like` | src/fb/presentation/rest/v1/posts.py:443-474 | on success only, the like is written and the key as spelled deleted; a text that is no id changes nothing |
| `PostCache.PostHandlers.Comment` | src/fb/presentation/rest/v1/posts.py:381-415 | the comment without touching the cache |
| `TokenRevocation.RevokedIsCovered` | src/fb/application/auth/logout.py:18-26 | with lifetimes no longer than logout's, a guarded logout leaves entries that outlive both tokens |
| `TokenRevocation.CoverIsKept` | src/fb/infrastructure/auth/jwt_service.py:51-67 | no later event shortens the cover, because a revoked token fails the guard and a refresh token is no access token |
| `TokenRevocation.RevokedStaysCovered` | src/fb/presentation/dependencies.py:19-37 | in any run a revoked token is covered at every later time |
| `TokenRevocation.LongerLifetimesComeBack` | src/fb/application/auth/logout.py:10-13 | with a longer configured lifetime there is a run in which a revoked token is accepted again |
| `TokenRevocation.RevocationIsFinalExactly` | src/fb/application/auth/logout.py:10-26 | revocation is final in all runs if and only if no access token is ever valid, or lifetimes are at most 15 minutes and 7 days |
| `TokenRevocation.RefreshDoesNotRotate` | src/fb/application/auth/refresh_token.py:27-64 | a refresh leaves the token it was given usable, whether it issues new ones or not |
| `TokenRevocation.RefreshIsAcceptedExactly` | src/fb/application/auth/refresh_token.py:27-64 | a refresh issues tokens exactly if its token may be used and its user is active, for that token's subject alone, accepted as those of a login are |
| `TokenRevocation.KindsAreKeptApart` | src/fb/infrastructure/auth/jwt_service.py:51-67 | no token passes both as an access and as a refresh token |
| `TokenRevocation.UnguardedLogoutDoesNothing` | src/fb/presentation/rest/v1/auth.py:146-165 | a logout without a valid access token changes nothing; with one the entries last 900 and 604800 seconds |
| `TokenRevocation.LogoutRevokesTexts` | src/fb/infrastructure/cache/token_blacklist.py:14-21 | a logout changes nothing for any text but the two it is given |
| `TokenRevocation.LoginIsAcceptedExactly` | src/fb/infrastructure/auth/jwt_service.py:20-39 | fresh tokens are accepted if and only if their lifetime is positive and an equal token is not blacklisted |
| `TokenRevocation.QuickReturnIsRefused` | src/fb/infrastructure/auth/jwt_service.py:20-39 | logging out and in again within one second yields refused tokens |
| `TokenRevocation.TokenBlacklist.Logout` | src/fb/application/auth/logout.py:18-26 | exactly the two entries with their lifetimes are written, the refresh token's last |
| `TokenRevocation.TokenBlacklist.Contains` | src/fb/infrastructure/cache/token_blacklist.py:18-21 | a token is found exactly while its entry lives |
| `RateLimiter.BearersShareExactly` | src/fb/presentation/middleware/rate_limiter.py:86-88 | two bearers share a budget if and only if their tokens agree on the first 32 characters, wherever they come from |
| `RateLimiter.TokensWithOneHeaderShare` | src/fb/presentation/middleware/rate_limiter.py:86-88 | tokens with a common first segment of 32 or more characters share one budget |
| `RateLimiter.AllUsersShareOneBudget` | src/fb/presentation/middleware/rate_limiter.py:86-88 | the header of this service's tokens encodes to 36 characters without padding, so all its users share one budget |
| `RateLimiter.FirstHopIdentifies` | src/fb/presentation/middleware/rate_limiter.py:80-85 | a guest behind proxies is identified by the first forwarded address alone |
| `RateLimiter.ClientIdentifies` | src/fb/presentation/middleware/rate_limiter.py:80-85 | without a proxy a guest is identified by the client's address, or with all others that have none |
| `RateLimiter.BearersHaveTheUsersLimit` | src/fb/presentation/middleware/rate_limiter.py:46-75 | whoever names a bearer token has the users' limit, anyone else the guests' |
| `RateLimiter.CountersStayExact` | src/fb/presentation/middleware/rate_limiter.py:101-112 | in any time-ordered run a counter equals its window's requests and its expiry lies after the window |
| `RateLimiter.KthRequestOfAWindow` | src/fb/presentation/middleware/rate_limiter.py:101-112 | the k-th request of a window is allowed exactly if k is within the limit, with the right remaining count and reset time |
| `RateLimiter.WindowsAreExact` | src/fb/presentation/middleware/rate_limiter.py:101-112 | each aligned window allows exactly min(requests, limit) |
| `RateLimiter.IntervalWithinTwoWindows` | src/fb/presentation/middleware/rate_limiter.py:101-103 | what any 60 seconds allow is at most what two neighbouring windows allow, and equals it for a run inside them |
| `RateLimiter.AnyMinuteAllowsTwiceTheLimit` | src/fb/presentation/middleware/rate_limiter.py:101-112 | any 60 seconds allow at most twice the limit |
| `RateLimiter.BurstsAcrossABoundary` | src/fb/presentation/middleware/rate_limiter.py:101-112 | and that many do get through within one second around a boundary |
| `RateLimiter.SlidesExactlyWhenShut` | src/fb/presentation/middleware/rate_limiter.py:17-25 | the promise of a sliding window holds if and only if the limit is zero |
| `RateLimiter.RateLimitMiddleware.CheckRateLimit` | src/fb/presentation/middleware/rate_limiter.py:90-112 | counters and decision are those of the specified request |
| `Conversations.EachPartnerOnce` | src/fb/infrastructure/repositories/message_repo.py:145-191 | the list has each partner exactly once, with a latest message of the pair and that partner's unread count, newest first |
| `Conversations.ListDescribesTheMessages` | src/fb/infrastructure/repositories/message_repo.py:147-171 | in terms of messages: a partner is whoever exchanged one with the user, either way, shown with one than which none of theirs is later |
| `Conversations.PagesMakeTheList` | src/fb/infrastructure/repositories/message_repo.py:189-190 | pages of any size read one after the other are the beginning of the list, as long as asked for, and the list in the end |
| `Conversations.SumCountsMessages` | src/fb/infrastructure/repositories/message_repo.py:172-188 | the unread counts of any rows with distinct partners sum to the unread messages from those partners |
| `Conversations.PageSumsExactly` | src/fb/infrastructure/repositories/message_repo.py:187-190 | a page's counts never exceed the flat unread count, and equal it if and only if no unread message's sender is off the page |
| `Conversations.ListSumsToUnreadCount` | src/fb/infrastructure/repositories/message_repo.py:218-229 | the counts of the unlimited list sum to the flat unread count |
| `Conversations.SeenTakesOffOneConversation` | src/fb/infrastructure/repositories/message_repo.py:44-58 | marking a conversation seen lowers its reader's total by exactly that conversation's count and changes no other count of anyone |
| `Conversations.SeenKeepsTheList` | src/fb/infrastructure/repositories/message_repo.py:44-58 | and changes neither partners nor latest messages for any viewer |
| `Conversations.MessageRepository.Add` | src/fb/infrastructure/repositories/message_repo.py:17-26 | a new message adds one to its receiver's total and nothing to others' |
| `Conversations.MessageRepository.MarkSeen` | src/fb/infrastructure/repositories/message_repo.py:36-42 | takes one off the total of whoever had the message unread |
| `Conversations.MessageRepository.MarkConversationSeen` | src/fb/infrastructure/repositories/message_repo.py:44-58 | lowers the reader's total by that conversation's unread messages and leaves every other user's |
| `Conversations.MessageRepository.GetUnreadCount` | src/fb/infrastructure/repositories/message_repo.py:218-229 | counts exactly the unread messages |
| `FeedRanking.ComputeAffinities` | src/fb/domain/post/affinity.py:65-94 | exactly the authors asked about get an affinity, from their counts or from none |
| `FeedRanking.AffinityWithinUnit` | src/fb/domain/post/affinity.py:50-63 | affinities lie in [0, 1] |
| `FeedRanking.InteractionRaisesAffinity` | src/fb/domain/post/affinity.py:60-63 | more likes and comments never lower an affinity |
| `FeedRanking.ScoreWithinHundred` | src/fb/domain/post/feed_scoring.py:81-141 | scores lie in [0, 100], and in [2, 82] without an interaction history |
| `FeedRanking.EngagementOnlyRaises` | src/fb/domain/post/feed_scoring.py:114-121 | more likes and comments never lower a score |
| `FeedRanking.EngagementSaturatesExactly` | src/fb/domain/post/feed_scoring.py:120-121 | engagement is 0.3 a like until the cap of 30, reached exactly at 100 likes' worth |
| `FeedRanking.ContentBonuses` | src/fb/domain/post/feed_scoring.py:134-141 | media gives five points, a text over 100 characters gives five, independently |
| `FeedRanking.AffinityLifts` | src/fb/domain/post/feed_scoring.py:123-131 | the score rises by 20 times the affinity, and an author not asked about counts as 0.1 |
| `FeedRanking.RecencyByTheDay` | src/fb/domain/post/feed_scoring.py:107-112 | a post n days old has 40 times what the decay leaves at n, and one without a time nothing |
| `FeedRanking.AffinityAtFifty` | src/fb/domain/post/affinity.py:60-63 | fifty likes give what one unit of decay takes away, and nothing gives nothing |
| `FeedRanking.NewerScoresNoLess` | src/fb/domain/post/feed_scoring.py:101-112 | a later creation time never lowers a score, and one in the future counts as now |
| `FeedRanking.CommentIsWorthThreeLikes` | src/fb/domain/post/feed_scoring.py:120-121 | a comment moves scores and affinities as three likes do |
| `FeedRanking.SortedIndices` | src/fb/domain/post/feed_scoring.py:76 | the order holds every position once, by descending score and then by position |
| `FeedRanking.SortedPosition` | src/fb/domain/post/feed_scoring.py:76 | an element's place is the number of those with a higher score plus the earlier ones with its own |
| `FeedRanking.EqualsKeepTheirOrder` | src/fb/domain/post/feed_scoring.py:76 | of equal scores the one that stood first comes first |
| `FeedRanking.RaisedNeverFallsBack` | src/fb/domain/post/feed_scoring.py:75-76 | raising one score never moves its owner back in the sort |
| `FeedRanking.RankingSucceedsExactly` | src/fb/domain/post/feed_scoring.py:74-75 | ranking succeeds if and only if no candidate's creation time carries a time zone |
| `FeedRanking.RankedFeedIsAPart` | src/fb/application/post/get_feed.py:84-122 | the ranked feed is min(limit, candidates) of the candidates, none twice |
| `FeedRanking.RankedFeedIsTheTop` | src/fb/application/post/get_feed.py:118-122 | it descends in score, and every post in it scores at least what any candidate left out does |
| `FeedRanking.RankedFeedIsTheTopOfAllExactly` | src/fb/application/post/get_feed.py:89-122 | of the newest 3 * limit visible posts being ranked: the feed served has min(limit, visible) posts, and is the top of all visible posts if and only if no post outside the candidates scores more than a served one |
| `FeedRanking.SmallFeedsAreRankedInFull` | src/fb/application/post/get_feed.py:89-98 | with at most 3 * limit visible posts it always is |
| `FeedRanking.OldFavouriteIsLeftOut` | src/fb/application/post/get_feed.py:89-98 | an input for which it is not: a post an hour old with 100 likes behind three new ones, page of one |
| `FeedRanking.EngagementNeverMovesLater` | src/fb/domain/post/feed_scoring.py:71-77 | more likes and comments on one candidate never move it later in the ranking |
| `RangeStreaming.ParsedStartIsNat` | src/fb/presentation/rest/v1/streaming.py:104-108 | whatever the header, a parsed start is not negative |
| `RangeStreaming.AcceptedRangeIsInsideTheFile` | src/fb/presentation/rest/v1/streaming.py:102-142 | an accepted range satisfies 0 <= start <= end < size and its announced length is that of the range |
| `RangeStreaming.ClosedRangeIsServedExactly` | src/fb/presentation/rest/v1/streaming.py:105-119 | first-last is served as asked if and only if it lies in the file, and refused otherwise |
| `RangeStreaming.OpenRangeRunsToTheEnd` | src/fb/presentation/rest/v1/streaming.py:105-119 | first- is served to the last byte if and only if first lies in the file |
| `RangeStreaming.SuffixRangeIsRefused` | src/fb/presentation/rest/v1/streaming.py:107-110 | a suffix range is always refused |
| `RangeStreaming.UnitIsOptional` | src/fb/presentation/rest/v1/streaming.py:105 | a range without its unit is read as with it |
| `RangeStreaming.RestIsIgnored` | src/fb/presentation/rest/v1/streaming.py:106-108 | what stands after a second dash does not count |
| `RangeStreaming.SignIsRead` | src/fb/presentation/rest/v1/streaming.py:107-108 | a sign before the digits is read |
| `RangeStreaming.SpacesAreRead` | src/fb/presentation/rest/v1/streaming.py:107-108 | spaces around the digits do not matter |
| `RangeStreaming.SendRange` | src/fb/presentation/rest/v1/streaming.py:121-131 | with any short reads the chunks, none empty or over 65536 bytes, concatenate to exactly the range |
| `RangeStreaming.SendFull` | src/fb/presentation/rest/v1/streaming.py:145-151 | the chunks concatenate to the file |
| `RangeStreaming.StreamLocalFile` | src/fb/presentation/rest/v1/streaming.py:100-161 | what is sent is what the status and the headers announce |
| `UnitOfWork.SqlAlchemyUnitOfWork.Handle` | src/fb/presentation/rest/v1/posts.py:226-238 | a handler's write lasts if and only if its use case neither raises nor enters the unit of work again, and a session stays open if and only if it enters again |
| `UnitOfWork.SqlAlchemyUnitOfWork.Enter` | src/fb/infrastructure/database/unit_of_work.py:17-19 | a fresh session takes the place of the current one |
| `UnitOfWork.SqlAlchemyUnitOfWork.Exit` | src/fb/infrastructure/database/unit_of_work.py:21-31 | only the current session is closed, what it had not committed is lost |
| `UnitOfWork.SqlAlchemyUnitOfWork.Commit` | src/fb/infrastructure/database/unit_of_work.py:33-34 | the current session's writes become durable, no other's; without one it fails |
| `UnitOfWork.SqlAlchemyUnitOfWork.Rollback` | src/fb/infrastructure/database/unit_of_work.py:36-37 | the current session's writes are dropped, no other's; without one it fails |

## Left out

- Concurrency of handlers. The friend rules, the counters and the coherence of the post cache are proved for calls one after the other. Of overlapping calls those are modelled in which the second reads before the first commits and writes after it: two sends, an accept and a reject, and any two calls on posts. Finer interleavings are not, and neither is a GET that read its row before an update and stores it after the update's invalidation.
- Redis failures and swallowed exceptions: Redis is reachable throughout. The rate limiter lets everything through when it is not.
- The use cases are modelled as one transaction entered once. Those that enter the unit of work again are create, update and delete post under their REST and GraphQL handlers, and the four friend use cases under the GraphQL mutations (src/fb/presentation/graphql/mutations/friend.py:33, 61, 89, 112). `unit_of_work.dfy` states what becomes of such a write and `post_cache.dfy` carries it for posts; `friends.dfy` and `post_store.dfy` do not, and the row locks of the session left open are not modelled.
- The legacy list API and the per-post payload keys of the feed cache are not modelled.
- Rounding of floating-point scores and of Unix times: scores and clock readings are reals, and the exponential is a parameter of which bounds or monotonicity are assumed where needed.
- `get_feed_posts` promises no order, so the ranking starts from candidates in any order and nothing is said about the order `GetFeedUseCase.execute` returns; the chronological mode and the estimate `has_next_page` are left out.
- Base64 and ISO decoders: they are modelled on what the encoders produce and refuse the rest, where Python's are more lenient.
- Strings: `strip`, `split` and `int` are modelled over ASCII whitespace and digits; the reading of a UUID takes 32 hexadecimal digits only, where Python's also lets `int` take underscores, signs, spaces or a `0x` among the 32 characters. A cursor without a UTC offset, which no row produces, is read as UTC.
- JWT signatures, bcrypt and UUID generation: claims that were not issued have no valid token, ids are parameters. Which texts decode to the same claims is not modelled beyond numbering them. The email claim is part of the subject. The check of `iat` against a clock that runs back, and the rest of login and registration, are left out.
- Foreign keys to users: any id may send, like or comment.
- A file that changes while it is streamed, storage backends, media processing.
- GraphQL mutations: they run the same use cases but invalidate on their own terms (creating a comment deletes the cached post there, reactions have no mutation). The runs of `post_cache.dfy` are those of the REST handlers.
- Shares, follows, profiles, notifications, search, pub/sub and WebSocket delivery: guards and field copies, or foreign calls.
- Offset-paged lists of friends, comments and reactions.
