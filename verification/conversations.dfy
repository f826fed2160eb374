/**
 Direct messages: the conversation list (one row per partner, by DISTINCT ON, GROUP BY and a LEFT JOIN)
 against the flat unread count, and the updates that mark messages as seen.
 */
module Conversations {
  import opened Common

  datatype Message = Message(sender: Uuid, receiver: Uuid, content: string, seen: bool, createdAt: int)

  type Messages = map<Uuid, Message>

  // ---------- the queries ----------

  function PartnerOf(m: Message, user: Uuid): Uuid {
    if m.sender == user then m.receiver else m.sender
  }

  predicate Involves(m: Message, user: Uuid) {
    m.sender == user || m.receiver == user
  }

  function Partners(ms: Messages, user: Uuid): set<Uuid> {
    set i | i in ms && Involves(ms[i], user) :: PartnerOf(ms[i], user)
  }

  predicate IsUnread(m: Message, user: Uuid) {
    m.receiver == user && !m.seen
  }

  /** get_unread_count counts these. */
  function Unread(ms: Messages, user: Uuid): set<Uuid> {
    set i | i in ms && IsUnread(ms[i], user)
  }

  function UnreadFrom(ms: Messages, user: Uuid, sender: Uuid): set<Uuid> {
    set i | i in ms && IsUnread(ms[i], user) && ms[i].sender == sender
  }

  /** The unread_counts subquery: GROUP BY sender makes no row for a sender without unread messages. */
  function UnreadCounts(ms: Messages, user: Uuid): map<Uuid, nat> {
    map p | p in (set i | i in Unread(ms, user) :: ms[i].sender) :: |UnreadFrom(ms, user, p)|
  }

  predicate IsLatest(ms: Messages, user: Uuid, partner: Uuid, id: Uuid) {
    && id in ms && Involves(ms[id], user) && PartnerOf(ms[id], user) == partner
    && forall i | i in ms && Involves(ms[i], user) && PartnerOf(ms[i], user) == partner ::
         ms[i].createdAt <= ms[id].createdAt
  }

  lemma {:induction false} LatestIn(ms: Messages, ids: set<Uuid>) returns (id: Uuid)
    requires ids != {} && forall i | i in ids :: i in ms
    ensures id in ids && forall i | i in ids :: ms[i].createdAt <= ms[id].createdAt
  {
    id :| id in ids;
    if ids != {id} {
      var other := LatestIn(ms, ids - {id});
      if ms[id].createdAt < ms[other].createdAt { id := other; }
    }
  }

  lemma LatestExists(ms: Messages, user: Uuid, partner: Uuid)
    requires partner in Partners(ms, user)
    ensures exists id :: IsLatest(ms, user, partner, id)
  {
    var ids := set i | i in ms && Involves(ms[i], user) && PartnerOf(ms[i], user) == partner;
    var some :| some in ms && Involves(ms[some], user) && PartnerOf(ms[some], user) == partner;
    assert some in ids;
    var id := LatestIn(ms, ids);
    assert IsLatest(ms, user, partner, id);
  }

  /** The last_msgs subquery: of messages equally late DISTINCT ON may keep any. */
  ghost function LastMessage(ms: Messages, user: Uuid, partner: Uuid): (id: Uuid)
    requires partner in Partners(ms, user)
    ensures IsLatest(ms, user, partner, id)
  {
    LatestExists(ms, user, partner);
    var id :| IsLatest(ms, user, partner, id);
    id
  }

  datatype Conversation = Conversation(partner: Uuid, last: Uuid, lastAt: int, unreadCount: nat)

  /** The LEFT JOIN of the two subqueries, with COALESCE(cnt, 0). */
  ghost function Joined(ms: Messages, user: Uuid): set<Conversation> {
    set p | p in Partners(ms, user) ::
      var last, counts := LastMessage(ms, user, p), UnreadCounts(ms, user);
      Conversation(p, last, ms[last].createdAt, if p in counts then counts[p] else 0)
  }

  lemma NewestExists(rows: set<Conversation>)
    requires rows != {}
    ensures exists c | c in rows :: forall d | d in rows :: d.lastAt <= c.lastAt
  {
    var c := Newest(rows);
  }

  lemma {:induction false} Newest(rows: set<Conversation>) returns (c: Conversation)
    requires rows != {}
    ensures c in rows && forall d | d in rows :: d.lastAt <= c.lastAt
  {
    c :| c in rows;
    if rows != {c} {
      var d := Newest(rows - {c});
      if c.lastAt <= d.lastAt { c := d; }
    }
  }

  /** ORDER BY created_at DESC. */
  ghost function ByRecency(rows: set<Conversation>): (r: seq<Conversation>)
    ensures |r| == |rows| && (forall c :: c in r <==> c in rows)
    ensures forall i, j | 0 <= i < j < |r| :: r[j].lastAt <= r[i].lastAt && r[i] != r[j]
  {
    if rows == {} then [] else
      NewestExists(rows);
      var c :| c in rows && forall d | d in rows :: d.lastAt <= c.lastAt;
      [c] + ByRecency(rows - {c})
  }

  /** All conversations of a user, and the page that LIMIT and OFFSET cut out of them. */
  ghost function AllConversations(ms: Messages, user: Uuid): seq<Conversation> {
    ByRecency(Joined(ms, user))
  }

  ghost function GetConversations(ms: Messages, user: Uuid, limit: nat, offset: nat): seq<Conversation> {
    PageOf(AllConversations(ms, user), limit, offset)
  }

  function PageOf(all: seq<Conversation>, limit: nat, offset: nat): seq<Conversation> {
    all[Min(offset, |all|)..Min(offset + limit, |all|)]
  }

  // ---------- the list against the messages ----------

  predicate DistinctPartners(list: seq<Conversation>) {
    forall i, j | 0 <= i < j < |list| :: list[i].partner != list[j].partner
  }

  lemma JoinedRow(ms: Messages, user: Uuid, c: Conversation)
    requires c in Joined(ms, user)
    ensures c.partner in Partners(ms, user) && c.last == LastMessage(ms, user, c.partner)
    ensures c.lastAt == ms[c.last].createdAt
    ensures c.unreadCount == |UnreadFrom(ms, user, c.partner)|
  {
  }

  /** The row that stands for a partner: a latest message of the pair, and the unread messages from that partner. */
  predicate Describes(ms: Messages, user: Uuid, c: Conversation) {
    && IsLatest(ms, user, c.partner, c.last) && c.lastAt == ms[c.last].createdAt
    && c.unreadCount == |UnreadFrom(ms, user, c.partner)|
  }

  predicate NewestFirst(list: seq<Conversation>) {
    forall i, j | 0 <= i < j < |list| :: list[j].lastAt <= list[i].lastAt
  }

  /** Each partner appears exactly once, with a latest message of the pair and its unread count, newest first. */
  lemma EachPartnerOnce(ms: Messages, user: Uuid)
    ensures var all := AllConversations(ms, user);
            && DistinctPartners(all) && NewestFirst(all)
            && (forall c | c in all :: Describes(ms, user, c))
            && PartnersIn(all) == Partners(ms, user)
  {
    var all := AllConversations(ms, user);
    forall c | c in all ensures Describes(ms, user, c) && c.partner in Partners(ms, user) {
      JoinedRow(ms, user, c);
    }
    PartnersAreDistinct(ms, user);
    forall p | p in Partners(ms, user) ensures p in PartnersIn(all) {
      PartnerHasRow(ms, user, p);
    }
  }

  lemma PartnersAreDistinct(ms: Messages, user: Uuid)
    ensures DistinctPartners(AllConversations(ms, user))
  {
    var all := AllConversations(ms, user);
    forall i, j | 0 <= i < j < |all| ensures all[i].partner != all[j].partner {
      assert all[i] in all && all[j] in all;
      if all[i].partner == all[j].partner { RowPerPartner(ms, user, all[i], all[j]); }
    }
  }

  lemma RowPerPartner(ms: Messages, user: Uuid, c: Conversation, d: Conversation)
    requires c in Joined(ms, user) && d in Joined(ms, user) && c.partner == d.partner
    ensures c == d
  {
  }

  lemma PartnerHasRow(ms: Messages, user: Uuid, p: Uuid)
    requires p in Partners(ms, user)
    ensures exists c | c in AllConversations(ms, user) :: c.partner == p
  {
    var last, counts := LastMessage(ms, user, p), UnreadCounts(ms, user);
    var c := Conversation(p, last, ms[last].createdAt, if p in counts then counts[p] else 0);
    assert c in Joined(ms, user);
  }

  predicate Between(m: Message, user: Uuid, other: Uuid) {
    (m.sender == user && m.receiver == other) || (m.sender == other && m.receiver == user)
  }

  /** The row in terms of the messages: its last message is between the two, and none between them is later. */
  predicate ShowsLatest(ms: Messages, user: Uuid, c: Conversation) {
    && c.last in ms && Between(ms[c.last], user, c.partner) && c.lastAt == ms[c.last].createdAt
    && forall i | i in ms && Between(ms[i], user, c.partner) :: ms[i].createdAt <= c.lastAt
  }

  lemma DescribedShowsLatest(ms: Messages, user: Uuid, c: Conversation)
    requires Describes(ms, user, c)
    ensures ShowsLatest(ms, user, c)
  {
  }

  /** A partner is whoever exchanged a message with the user, either way; each is shown with their latest. */
  lemma ListDescribesTheMessages(ms: Messages, user: Uuid, p: Uuid)
    ensures p in PartnersIn(AllConversations(ms, user)) <==> exists i | i in ms :: Between(ms[i], user, p)
    ensures forall c | c in AllConversations(ms, user) :: ShowsLatest(ms, user, c)
  {
    EachPartnerOnce(ms, user);
    PartnersExactly(ms, user, p);
    var all := AllConversations(ms, user);
    forall c | c in all ensures ShowsLatest(ms, user, c) {
      DescribedShowsLatest(ms, user, c);
    }
  }

  lemma PartnersExactly(ms: Messages, user: Uuid, p: Uuid)
    ensures p in Partners(ms, user) <==> exists i | i in ms :: Between(ms[i], user, p)
  {
    if i :| i in ms && Between(ms[i], user, p) {
      assert Involves(ms[i], user) && PartnerOf(ms[i], user) == p;
    }
    if i :| i in ms && Involves(ms[i], user) && PartnerOf(ms[i], user) == p {
      assert Between(ms[i], user, p);
    }
  }

  function Beginning(all: seq<Conversation>, n: nat): seq<Conversation> {
    if n <= |all| then all[..n] else all
  }

  /** What is read by asking a query for page after page of one size, until n conversations are asked for. */
  function ReadPages(query: (nat, nat) -> seq<Conversation>, size: nat, n: nat): seq<Conversation>
    requires size >= 1
  {
    if n < size then query(n, 0) else ReadPages(query, size, n - size) + query(size, n - size)
  }

  lemma PageFollowsOn(all: seq<Conversation>, read: nat, size: nat)
    ensures PageOf(all, read, 0) == Beginning(all, read)
    ensures Beginning(all, read) + PageOf(all, size, read) == Beginning(all, read + size)
  {
  }

  lemma {:induction false} PagesAreTheBeginning(query: (nat, nat) -> seq<Conversation>, all: seq<Conversation>, size: nat, n: nat)
    requires size >= 1 && forall limit, offset :: query(limit, offset) == PageOf(all, limit, offset)
    ensures ReadPages(query, size, n) == Beginning(all, n)
  {
    if n < size {
      PageFollowsOn(all, n, size);
    } else {
      PagesAreTheBeginning(query, all, size, n - size);
      PageFollowsOn(all, n - size, size);
    }
  }

  /** Pages read one after the other are the beginning of the list, and the list once they are long enough together. */
  lemma PagesMakeTheList(ms: Messages, user: Uuid, query: (nat, nat) -> seq<Conversation>, size: nat, n: nat)
    requires size >= 1 && forall limit, offset :: query(limit, offset) == GetConversations(ms, user, limit, offset)
    ensures ReadPages(query, size, n) == Beginning(AllConversations(ms, user), n)
  {
    var all := AllConversations(ms, user);
    forall limit: nat, offset: nat ensures query(limit, offset) == PageOf(all, limit, offset) {}
    PagesAreTheBeginning(query, all, size, n);
  }

  function UnreadSum(list: seq<Conversation>): nat {
    if list == [] then 0 else list[0].unreadCount + UnreadSum(list[1..])
  }

  function PartnersIn(list: seq<Conversation>): set<Uuid> {
    set c | c in list :: c.partner
  }

  /** The unread messages from a set of senders. */
  function UnreadAmong(ms: Messages, user: Uuid, senders: set<Uuid>): set<Uuid> {
    set i | i in ms && IsUnread(ms[i], user) && ms[i].sender in senders
  }

  lemma OneMoreSender(ms: Messages, user: Uuid, p: Uuid, rest: set<Uuid>)
    requires p !in rest
    ensures |UnreadAmong(ms, user, {p} + rest)| == |UnreadFrom(ms, user, p)| + |UnreadAmong(ms, user, rest)|
  {
    assert UnreadAmong(ms, user, {p} + rest) == UnreadFrom(ms, user, p) + UnreadAmong(ms, user, rest);
  }

  lemma {:induction false} SumCountsMessages(ms: Messages, user: Uuid, list: seq<Conversation>)
    requires DistinctPartners(list)
    requires forall c | c in list :: c.unreadCount == |UnreadFrom(ms, user, c.partner)|
    ensures UnreadSum(list) == |UnreadAmong(ms, user, PartnersIn(list))|
  {
    if list == [] {
      assert UnreadAmong(ms, user, PartnersIn(list)) == {};
    } else {
      var p, rest := list[0].partner, PartnersIn(list[1..]);
      assert list[0] in list && list == [list[0]] + list[1..];
      SumCountsMessages(ms, user, list[1..]);
      assert PartnersIn(list) == {p} + rest && p !in rest;
      OneMoreSender(ms, user, p, rest);
    }
  }

  lemma SliceIsDistinct(all: seq<Conversation>, lo: nat, hi: nat)
    requires DistinctPartners(all) && lo <= hi <= |all|
    ensures DistinctPartners(all[lo..hi])
  {
  }

  lemma PageIsPartOfList(ms: Messages, user: Uuid, limit: nat, offset: nat)
    ensures var page := GetConversations(ms, user, limit, offset);
            && DistinctPartners(page)
            && forall c | c in page :: c.unreadCount == |UnreadFrom(ms, user, c.partner)|
  {
    EachPartnerOnce(ms, user);
    var all, page := AllConversations(ms, user), GetConversations(ms, user, limit, offset);
    SliceIsDistinct(all, Min(offset, |all|), Min(offset + limit, |all|));
    forall c | c in page ensures c.unreadCount == |UnreadFrom(ms, user, c.partner)| {
      assert c in all;
    }
  }

  /** The unread counts of a page add up to the flat unread count exactly when no unread message is off the page. */
  lemma PageSumsExactly(ms: Messages, user: Uuid, limit: nat, offset: nat)
    ensures UnreadSum(GetConversations(ms, user, limit, offset)) <= |Unread(ms, user)|
    ensures UnreadSum(GetConversations(ms, user, limit, offset)) == |Unread(ms, user)| <==>
            forall i | i in Unread(ms, user) :: ms[i].sender in PartnersIn(GetConversations(ms, user, limit, offset))
  {
    var page := GetConversations(ms, user, limit, offset);
    PageIsPartOfList(ms, user, limit, offset);
    SumCountsMessages(ms, user, page);
    SubsetSize(UnreadAmong(ms, user, PartnersIn(page)), Unread(ms, user));
  }

  /** Without a limit they always do: the badge and the list agree. */
  lemma ListSumsToUnreadCount(ms: Messages, user: Uuid, limit: nat)
    requires limit >= |AllConversations(ms, user)|
    ensures UnreadSum(GetConversations(ms, user, limit, 0)) == |Unread(ms, user)|
  {
    var all := AllConversations(ms, user);
    EachPartnerOnce(ms, user);
    assert GetConversations(ms, user, limit, 0) == all;
    forall i | i in Unread(ms, user) ensures ms[i].sender in PartnersIn(all) {
      assert PartnerOf(ms[i], user) == ms[i].sender;
      assert ms[i].sender in Partners(ms, user);
    }
    PageSumsExactly(ms, user, limit, 0);
  }

  // ---------- marking as seen ----------

  /** UPDATE ... SET is_seen = true WHERE sender = other AND receiver = user AND NOT is_seen. */
  function ConversationSeen(ms: Messages, user: Uuid, other: Uuid): Messages {
    map i | i in ms ::
      if ms[i].sender == other && ms[i].receiver == user && !ms[i].seen then ms[i].(seen := true) else ms[i]
  }

  /** The update takes the one conversation's count off its reader's total and leaves every other count of every user. */
  lemma SeenTakesOffOneConversation(ms: Messages, user: Uuid, other: Uuid)
    ensures var after := ConversationSeen(ms, user, other);
            && |Unread(after, user)| == |Unread(ms, user)| - |UnreadFrom(ms, user, other)|
            && UnreadFrom(after, user, other) == {}
            && (forall u, p | u != user || p != other :: UnreadFrom(after, u, p) == UnreadFrom(ms, u, p))
            && (forall u | u != user :: Unread(after, u) == Unread(ms, u))
  {
    var after := ConversationSeen(ms, user, other);
    assert Unread(after, user) == Unread(ms, user) - UnreadFrom(ms, user, other);
    SubsetSize(UnreadFrom(ms, user, other), Unread(ms, user));
  }

  /** Nothing else about the conversations moves: same partners, and the same messages are latest. */
  lemma SeenKeepsTheList(ms: Messages, user: Uuid, other: Uuid, viewer: Uuid)
    ensures var after := ConversationSeen(ms, user, other);
            && Partners(after, viewer) == Partners(ms, viewer)
            && forall p, id :: IsLatest(after, viewer, p, id) <==> IsLatest(ms, viewer, p, id)
  {
    var after := ConversationSeen(ms, user, other);
    assert forall i | i in ms :: after[i].(seen := ms[i].seen) == ms[i];
    forall i | i in ms ensures Involves(after[i], viewer) == Involves(ms[i], viewer)
      && PartnerOf(after[i], viewer) == PartnerOf(ms[i], viewer) {}
  }

  // ---------- the repository ----------

  class MessageRepository {
    var messages: Messages

    constructor ()
      ensures messages == map[]
    {
      messages := map[];
    }

    /** A new message is unseen; the database stamps its time. */
    method Add(id: Uuid, sender: Uuid, receiver: Uuid, content: string, now: int)
      requires id !in messages
      modifies this
      ensures messages == old(messages)[id := Message(sender, receiver, content, false, now)]
      ensures |Unread(messages, receiver)| == |Unread(old(messages), receiver)| + 1
      ensures forall u | u != receiver :: Unread(messages, u) == Unread(old(messages), u)
    {
      messages := messages[id := Message(sender, receiver, content, false, now)];
      assert Unread(messages, receiver) == Unread(old(messages), receiver) + {id};
    }

    method MarkSeen(id: Uuid)
      modifies this
      ensures messages == if id in old(messages) then old(messages)[id := old(messages)[id].(seen := true)] else old(messages)
      ensures forall u :: |Unread(messages, u)| ==
                          |Unread(old(messages), u)| - if id in Unread(old(messages), u) then 1 else 0
    {
      if id in messages {
        messages := messages[id := messages[id].(seen := true)];
      }
      forall u ensures |Unread(messages, u)| == |Unread(old(messages), u)| - if id in Unread(old(messages), u) then 1 else 0 {
        assert Unread(messages, u) == Unread(old(messages), u) - {id};
      }
    }

    method MarkConversationSeen(user: Uuid, other: Uuid)
      modifies this
      ensures messages == ConversationSeen(old(messages), user, other)
      ensures |Unread(messages, user)| == |Unread(old(messages), user)| - |UnreadFrom(old(messages), user, other)|
      ensures forall u | u != user :: Unread(messages, u) == Unread(old(messages), u)
    {
      SeenTakesOffOneConversation(messages, user, other);
      messages := map i | i in messages ::
        if messages[i].sender == other && messages[i].receiver == user && !messages[i].seen
        then messages[i].(seen := true) else messages[i];
    }

    method GetUnreadCount(user: Uuid) returns (n: nat)
      ensures n == |Unread(messages, user)|
    {
      n := |set i | i in messages && messages[i].receiver == user && !messages[i].seen|;
      assert Unread(messages, user) == set i | i in messages && messages[i].receiver == user && !messages[i].seen;
    }
  }
}
