/**
 Friend requests and friendships: the two tables, their uniqueness constraints, and the four use
 cases that change them. Each use case is one transaction: a failure leaves both tables as they were.
 */
module Friends {
  import opened Common

  datatype Status = Pending | Accepted | Rejected | Blocked

  datatype FriendRequest = FriendRequest(sender: Uuid, receiver: Uuid, status: Status)

  /** friend_requests by primary key; a friendship row carries nothing but its unique (user, friend) pair. */
  datatype Tables = Tables(requests: map<Uuid, FriendRequest>, friendships: set<(Uuid, Uuid)>)

  datatype FriendError =
    | CannotFriendSelf | AlreadyFriends | UserBlocked | RequestAlreadyExists
    | RequestNotFound | NotFriends | IntegrityError

  // ---------- what the constraints and the use cases keep ----------

  predicate SameDirection(r: FriendRequest, s: Uuid, t: Uuid) {
    r.sender == s && r.receiver == t
  }

  predicate Joins(r: FriendRequest, a: Uuid, b: Uuid) {
    SameDirection(r, a, b) || SameDirection(r, b, a)
  }

  /** uq_friend_request_sender_receiver. */
  predicate UniqueDirections(t: Tables) {
    forall i, j | i in t.requests && j in t.requests
      && SameDirection(t.requests[i], t.requests[j].sender, t.requests[j].receiver) :: i == j
  }

  predicate OnePendingPerPair(t: Tables) {
    forall i, j | i in t.requests && j in t.requests
      && t.requests[i].status.Pending? && t.requests[j].status.Pending?
      && Joins(t.requests[i], t.requests[j].sender, t.requests[j].receiver) :: i == j
  }

  predicate NoPendingBetweenFriends(t: Tables) {
    forall i | i in t.requests && t.requests[i].status.Pending? ::
      (t.requests[i].sender, t.requests[i].receiver) !in t.friendships
  }

  predicate SymmetricIrreflexive(t: Tables) {
    && (forall i | i in t.requests :: t.requests[i].sender != t.requests[i].receiver)
    && (forall p | p in t.friendships :: p.0 != p.1 && (p.1, p.0) in t.friendships)
  }

  predicate FriendsHaveAcceptedRequest(t: Tables) {
    forall p | p in t.friendships ::
      exists i | i in t.requests :: t.requests[i].status.Accepted? && Joins(t.requests[i], p.0, p.1)
  }

  predicate Consistent(t: Tables) {
    && UniqueDirections(t) && OnePendingPerPair(t) && NoPendingBetweenFriends(t)
    && SymmetricIrreflexive(t) && FriendsHaveAcceptedRequest(t)
  }

  // ---------- the use cases as functions of the tables ----------

  predicate HasRequest(t: Tables, s: Uuid, r: Uuid) {
    exists i | i in t.requests :: SameDirection(t.requests[i], s, r)
  }

  /** find_request: the uniqueness constraint leaves at most one row to find. */
  function FindRequest(t: Tables, s: Uuid, r: Uuid): Option<FriendRequest>
    requires UniqueDirections(t)
  {
    if HasRequest(t, s, r) then
      var i :| i in t.requests && SameDirection(t.requests[i], s, r);
      Some(t.requests[i])
    else None
  }

  /** save_request: the insert violates the primary key or the uniqueness of the direction, or goes through. */
  function Insert(t: Tables, id: Uuid, s: Uuid, r: Uuid): Result<Tables, FriendError> {
    if id in t.requests || HasRequest(t, s, r) then Failure(IntegrityError)
    else Success(t.(requests := t.requests[id := FriendRequest(s, r, Pending)]))
  }

  /** The checks of SendRequestUseCase, in order; None lets the insert go ahead. */
  function SendCheck(t: Tables, s: Uuid, r: Uuid): Option<FriendError>
    requires UniqueDirections(t)
  {
    if s == r then Some(CannotFriendSelf)
    else if (s, r) in t.friendships then Some(AlreadyFriends)
    else
      var forward := FindRequest(t, s, r);
      var existing := if forward.None? then FindRequest(t, r, s) else forward;
      if existing.Some? && existing.value.status.Blocked? then Some(UserBlocked)
      else if existing.Some? && existing.value.status.Pending? then Some(RequestAlreadyExists)
      else None
  }

  function Send(t: Tables, id: Uuid, s: Uuid, r: Uuid): Result<Tables, FriendError>
    requires UniqueDirections(t)
  {
    var refused := SendCheck(t, s, r);
    if refused.Some? then Failure(refused.value) else Insert(t, id, s, r)
  }

  predicate MayDecide(t: Tables, id: Uuid, user: Uuid) {
    id in t.requests && t.requests[id].status.Pending? && t.requests[id].receiver == user
  }

  function SaveFriendship(t: Tables, user: Uuid, friend: Uuid): Result<Tables, FriendError> {
    if (user, friend) in t.friendships then Failure(IntegrityError)
    else Success(t.(friendships := t.friendships + {(user, friend)}))
  }

  function Accept(t: Tables, id: Uuid, user: Uuid): Result<Tables, FriendError> {
    if !MayDecide(t, id, user) then Failure(RequestNotFound)
    else
      var accepted := t.requests[id].(status := Accepted);
      var updated := t.(requests := t.requests[id := accepted]);
      var first := SaveFriendship(updated, accepted.sender, accepted.receiver);
      if first.Failure? then first
      else SaveFriendship(first.value, accepted.receiver, accepted.sender)
  }

  function Reject(t: Tables, id: Uuid, user: Uuid): Result<Tables, FriendError> {
    if !MayDecide(t, id, user) then Failure(RequestNotFound)
    else Success(t.(requests := t.requests[id := t.requests[id].(status := Rejected)]))
  }

  function Unfriend(t: Tables, user: Uuid, friend: Uuid): Result<Tables, FriendError> {
    if (user, friend) !in t.friendships then Failure(NotFriends)
    else Success(t.(friendships := t.friendships - {(user, friend), (friend, user)}))
  }

  // ---------- one call ----------

  /** A send goes through exactly when the two are no friends, its own direction is unused, and the other is unused or settled. */
  lemma SendSucceedsExactly(t: Tables, id: Uuid, s: Uuid, r: Uuid)
    requires Consistent(t) && id !in t.requests
    ensures Send(t, id, s, r).Success? <==>
            && s != r && (s, r) !in t.friendships && !HasRequest(t, s, r)
            && forall i | i in t.requests && SameDirection(t.requests[i], r, s) ::
                 t.requests[i].status.Accepted? || t.requests[i].status.Rejected?
  {
  }

  /** A settled request in the sender's own direction passes every check and is stopped by the constraint alone. */
  lemma ConstraintCoversTheUncheckedDirection(t: Tables, id: Uuid, s: Uuid, r: Uuid)
    requires Consistent(t) && id !in t.requests
    ensures Send(t, id, s, r) == Failure(IntegrityError) <==>
            && (s, r) !in t.friendships
            && exists i | i in t.requests :: SameDirection(t.requests[i], s, r)
                 && (t.requests[i].status.Accepted? || t.requests[i].status.Rejected?)
  {
  }

  lemma AcceptNeverViolatesUniqueness(t: Tables, id: Uuid, user: Uuid)
    requires Consistent(t)
    ensures Accept(t, id, user) != Failure(IntegrityError)
    ensures Accept(t, id, user).Success? <==> MayDecide(t, id, user)
    ensures MayDecide(t, id, user) ==>
              var p := (t.requests[id].sender, user);
              Accept(t, id, user).value.friendships == t.friendships + {p, (p.1, p.0)}
  {
  }

  /** What a send is refused with: the pair decides, and which of the two asked before does not matter. */
  lemma SendErrorsExactly(t: Tables, id: Uuid, s: Uuid, r: Uuid)
    requires Consistent(t)
    ensures Send(t, id, s, r) == Failure(CannotFriendSelf) <==> s == r
    ensures Send(t, id, s, r) == Failure(AlreadyFriends) <==> (s, r) in t.friendships
    ensures (forall i | i in t.requests :: !t.requests[i].status.Blocked?) ==>
              (Send(t, id, s, r) == Failure(RequestAlreadyExists) <==>
                 s != r && PendingJoins(t, s, r) && (HasRequest(t, s, r) ==> PendingFrom(t, s, r)))
  {
  }

  predicate PendingFrom(t: Tables, s: Uuid, r: Uuid) {
    exists i | i in t.requests :: t.requests[i].status.Pending? && SameDirection(t.requests[i], s, r)
  }

  predicate PendingJoins(t: Tables, s: Uuid, r: Uuid) {
    exists i | i in t.requests :: t.requests[i].status.Pending? && Joins(t.requests[i], s, r)
  }

  /** A send that goes through leaves one more request, pending from the sender to the receiver, and all else as it was. */
  lemma SendAsks(t: Tables, id: Uuid, s: Uuid, r: Uuid)
    requires Consistent(t) && Send(t, id, s, r).Success?
    ensures var u := Send(t, id, s, r).value;
            && id !in t.requests && u.requests.Keys == t.requests.Keys + {id} && u.friendships == t.friendships
            && u.requests[id].sender == s && u.requests[id].receiver == r && u.requests[id].status.Pending?
            && forall i | i in t.requests :: u.requests[i] == t.requests[i]
  {
  }

  /**
   A reject succeeds exactly for the receiver of a pending request. The request is then rejected, nothing
   else has changed, no request is pending between the two, and nobody can decide it again.
   */
  lemma RejectSettles(t: Tables, id: Uuid, user: Uuid)
    requires Consistent(t)
    ensures Reject(t, id, user).Success? <==>
            id in t.requests && t.requests[id].status.Pending? && t.requests[id].receiver == user
    ensures !Reject(t, id, user).Success? ==> Reject(t, id, user) == Failure(RequestNotFound)
    ensures Reject(t, id, user).Success? ==>
              var u, r := Reject(t, id, user).value, t.requests[id];
              && u.friendships == t.friendships && u.requests.Keys == t.requests.Keys
              && u.requests[id].status.Rejected? && SameDirection(u.requests[id], r.sender, r.receiver)
              && (forall i | i in t.requests && i != id :: u.requests[i] == t.requests[i])
              && !PendingJoins(u, r.sender, r.receiver)
              && forall anyone :: Reject(u, id, anyone).Failure? && Accept(u, id, anyone).Failure?
  {
  }

  /** An accept settles its request in the same way, and leaves the two friends either way round. */
  lemma AcceptSettles(t: Tables, id: Uuid, user: Uuid)
    requires Consistent(t)
    ensures !Accept(t, id, user).Success? ==> Accept(t, id, user) == Failure(RequestNotFound)
    ensures Accept(t, id, user).Success? ==>
              var u, r := Accept(t, id, user).value, t.requests[id];
              && u.requests.Keys == t.requests.Keys
              && u.requests[id].status.Accepted? && SameDirection(u.requests[id], r.sender, r.receiver)
              && (forall i | i in t.requests && i != id :: u.requests[i] == t.requests[i])
              && (r.sender, r.receiver) in u.friendships && (r.receiver, r.sender) in u.friendships
              && !PendingJoins(u, r.sender, r.receiver)
              && forall anyone :: Reject(u, id, anyone).Failure? && Accept(u, id, anyone).Failure?
  {
    AcceptNeverViolatesUniqueness(t, id, user);
  }

  /** Friends can be parted by either, and nobody else can; the two rows go, and nothing else. */
  lemma UnfriendParts(t: Tables, user: Uuid, friend: Uuid)
    requires Consistent(t)
    ensures Unfriend(t, user, friend).Success? <==> (user, friend) in t.friendships
    ensures Unfriend(t, user, friend).Success? <==> Unfriend(t, friend, user).Success?
    ensures !Unfriend(t, user, friend).Success? ==> Unfriend(t, user, friend) == Failure(NotFriends)
    ensures Unfriend(t, user, friend).Success? ==>
              var u := Unfriend(t, user, friend).value;
              && u.requests == t.requests
              && forall p :: p in u.friendships <==> p in t.friendships && p != (user, friend) && p != (friend, user)
  {
  }

  lemma SendKeepsConsistent(t: Tables, id: Uuid, s: Uuid, r: Uuid)
    requires Consistent(t) && Send(t, id, s, r).Success?
    ensures Consistent(Send(t, id, s, r).value)
  {
    SendSucceedsExactly(t, id, s, r);
    var u := Send(t, id, s, r).value;
    assert forall i | i in t.requests :: u.requests[i] == t.requests[i];
  }

  lemma AcceptKeepsConsistent(t: Tables, id: Uuid, user: Uuid)
    requires Consistent(t) && Accept(t, id, user).Success?
    ensures Consistent(Accept(t, id, user).value)
  {
    AcceptNeverViolatesUniqueness(t, id, user);
    var r, u := t.requests[id], Accept(t, id, user).value;
    assert u.requests == t.requests[id := r.(status := Accepted)];
    assert NoPendingBetweenFriends(u) by {
      forall i | i in u.requests && u.requests[i].status.Pending?
        ensures (u.requests[i].sender, u.requests[i].receiver) !in u.friendships
      {
        assert i != id && u.requests[i] == t.requests[i];
      }
    }
    assert FriendsHaveAcceptedRequest(u) by {
      forall p | p in u.friendships
        ensures exists i | i in u.requests :: u.requests[i].status.Accepted? && Joins(u.requests[i], p.0, p.1)
      {
        if p in t.friendships {
          var i :| i in t.requests && t.requests[i].status.Accepted? && Joins(t.requests[i], p.0, p.1);
          assert u.requests[i].status.Accepted?;
        } else {
          assert Joins(u.requests[id], p.0, p.1);
        }
      }
    }
  }

  lemma RejectKeepsConsistent(t: Tables, id: Uuid, user: Uuid)
    requires Consistent(t) && Reject(t, id, user).Success?
    ensures Consistent(Reject(t, id, user).value)
  {
    var u := Reject(t, id, user).value;
    assert forall i | i in t.requests && t.requests[i].status.Accepted? :: u.requests[i] == t.requests[i];
  }

  lemma UnfriendKeepsConsistent(t: Tables, user: Uuid, friend: Uuid)
    requires Consistent(t) && Unfriend(t, user, friend).Success?
    ensures Consistent(Unfriend(t, user, friend).value)
  {
  }

  // ---------- calls that overlap ----------

  /** The second of two sends that both pass their checks on t before either inserts. */
  function SecondOfOverlappingSends(t: Tables, i: Uuid, a: Uuid, b: Uuid, j: Uuid, c: Uuid, d: Uuid): Result<Tables, FriendError>
    requires UniqueDirections(t) && Send(t, i, a, b).Success?
  {
    Insert(Send(t, i, a, b).value, j, c, d)
  }

  /** Overlapping sends stay consistent exactly if they do not meet head on: the one-pending rule holds for serial calls only. */
  lemma OverlappingSendsExactly(t: Tables, i: Uuid, a: Uuid, b: Uuid, j: Uuid, c: Uuid, d: Uuid)
    requires Consistent(t) && Send(t, i, a, b).Success? && Send(t, j, c, d).Success?
    ensures SecondOfOverlappingSends(t, i, a, b, j, c, d).Success? <==> i != j && (a, b) != (c, d)
    ensures SecondOfOverlappingSends(t, i, a, b, j, c, d).Success? ==>
              var u := SecondOfOverlappingSends(t, i, a, b, j, c, d).value;
              && UniqueDirections(u)
              && (OnePendingPerPair(u) <==> !(a == d && b == c))
              && (Consistent(u) <==> !(a == d && b == c))
  {
    var first := Send(t, i, a, b).value;
    SendKeepsConsistent(t, i, a, b);
    SendSucceedsExactly(t, j, c, d);
    assert first.requests[i] == FriendRequest(a, b, Pending);
    if i != j && (a, b) != (c, d) {
      var u := Insert(first, j, c, d).value;
      if a == d && b == c {
        assert Joins(u.requests[i], u.requests[j].sender, u.requests[j].receiver);
      } else {
        NoPendingJoins(t, j, c, d);
        assert Send(first, j, c, d) == Insert(first, j, c, d);
        SendKeepsConsistent(first, j, c, d);
      }
    }
  }

  /** Where a send succeeds there is no pending request either way. */
  lemma NoPendingJoins(t: Tables, id: Uuid, s: Uuid, r: Uuid)
    requires Consistent(t) && Send(t, id, s, r).Success?
    ensures forall k | k in t.requests && Joins(t.requests[k], s, r) :: !t.requests[k].status.Pending?
  {
    SendSucceedsExactly(t, id, s, r);
  }

  /** From the empty tables, two users who ask each other at once leave two pending requests. */
  lemma OverlappingSendsLeaveTwoPending(a: Uuid, b: Uuid, i: Uuid, j: Uuid)
    requires a != b && i != j
    ensures var t := Tables(map[], {});
            && Send(t, i, a, b).Success? && Send(t, j, b, a).Success?
            && SecondOfOverlappingSends(t, i, a, b, j, b, a).Success?
            && UniqueDirections(SecondOfOverlappingSends(t, i, a, b, j, b, a).value)
            && !OnePendingPerPair(SecondOfOverlappingSends(t, i, a, b, j, b, a).value)
  {
    OverlappingSendsExactly(Tables(map[], {}), i, a, b, j, b, a);
  }

  /**
   A reject that read the request before an accept wrote it overwrites the status: the two are friends, and
   have an accepted request exactly if another request between them was accepted.
   */
  lemma StaleRejectExactly(t: Tables, id: Uuid, user: Uuid)
    requires Consistent(t) && MayDecide(t, id, user)
    ensures var r := t.requests[id];
            var u := Accept(t, id, user).value.(requests := t.requests[id := r.(status := Rejected)]);
            && Accept(t, id, user).Success?
            && (r.sender, r.receiver) in u.friendships
            && (FriendsHaveAcceptedRequest(u) <==>
                  exists k | k in t.requests :: t.requests[k].status.Accepted? && Joins(t.requests[k], r.sender, r.receiver))
  {
    AcceptNeverViolatesUniqueness(t, id, user);
    var r := t.requests[id];
    var u := Accept(t, id, user).value.(requests := t.requests[id := r.(status := Rejected)]);
    if k :| k in t.requests && t.requests[k].status.Accepted? && Joins(t.requests[k], r.sender, r.receiver) {
      forall p | p in u.friendships
        ensures exists i | i in u.requests :: u.requests[i].status.Accepted? && Joins(u.requests[i], p.0, p.1)
      {
        if p in t.friendships {
          var i :| i in t.requests && t.requests[i].status.Accepted? && Joins(t.requests[i], p.0, p.1);
          assert u.requests[i].status.Accepted?;
        } else {
          assert u.requests[k].status.Accepted? && Joins(u.requests[k], p.0, p.1);
        }
      }
    } else {
      assert (r.sender, r.receiver) in u.friendships;
    }
  }

  // ---------- whole runs ----------

  datatype Call =
    | SendCall(id: Uuid, sender: Uuid, receiver: Uuid)
    | AcceptCall(id: Uuid, user: Uuid)
    | RejectCall(id: Uuid, user: Uuid)
    | UnfriendCall(user: Uuid, friend: Uuid)

  function Do(t: Tables, c: Call): Result<Tables, FriendError>
    requires UniqueDirections(t)
  {
    match c
    case SendCall(id, s, r) => Send(t, id, s, r)
    case AcceptCall(id, u) => Accept(t, id, u)
    case RejectCall(id, u) => Reject(t, id, u)
    case UnfriendCall(u, f) => Unfriend(t, u, f)
  }

  /** The tables after the call; a call that fails rolls back. */
  function After(t: Tables, c: Call): Tables
    requires UniqueDirections(t)
  {
    if Do(t, c).Success? then Do(t, c).value else t
  }

  lemma AfterKeepsConsistent(t: Tables, c: Call)
    requires Consistent(t)
    ensures Consistent(After(t, c))
  {
    if Do(t, c).Success? {
      match c
      case SendCall(id, s, r) => SendKeepsConsistent(t, id, s, r);
      case AcceptCall(id, u) => AcceptKeepsConsistent(t, id, u);
      case RejectCall(id, u) => RejectKeepsConsistent(t, id, u);
      case UnfriendCall(u, f) => UnfriendKeepsConsistent(t, u, f);
    }
  }

  /** The tables that a run of calls reaches from an empty database. */
  function Run(calls: seq<Call>): (t: Tables)
    ensures Consistent(t)
  {
    if calls == [] then Tables(map[], {})
    else
      var before := Run(calls[..|calls| - 1]);
      AfterKeepsConsistent(before, calls[|calls| - 1]);
      After(before, calls[|calls| - 1])
  }

  /** Accepted and rejected are final, and no call takes a request row away. */
  lemma SettledRequestsAreFinal(t: Tables, c: Call, id: Uuid)
    requires Consistent(t) && id in t.requests
    ensures id in After(t, c).requests
    ensures !t.requests[id].status.Pending? ==> After(t, c).requests[id] == t.requests[id]
    ensures t.requests[id].status.Pending? ==>
              SameDirection(After(t, c).requests[id], t.requests[id].sender, t.requests[id].receiver)
  {
  }

  /** No use case blocks, so the blocked branch of the send check is never taken. */
  lemma {:induction false} NobodyIsEverBlocked(calls: seq<Call>, id: Uuid, s: Uuid, r: Uuid)
    ensures NoneBlocked(Run(calls)) && Send(Run(calls), id, s, r) != Failure(UserBlocked)
  {
    if calls != [] {
      var n := |calls| - 1;
      NobodyIsEverBlocked(calls[..n], id, s, r);
      CallBlocksNobody(Run(calls[..n]), calls[n]);
    }
    FindsUnblocked(Run(calls), s, r);
    FindsUnblocked(Run(calls), r, s);
  }

  predicate NoneBlocked(t: Tables) {
    forall i | i in t.requests :: !t.requests[i].status.Blocked?
  }

  lemma FindsUnblocked(t: Tables, s: Uuid, r: Uuid)
    requires UniqueDirections(t) && NoneBlocked(t)
    ensures FindRequest(t, s, r).Some? ==> !FindRequest(t, s, r).value.status.Blocked?
  {
  }

  lemma CallBlocksNobody(t: Tables, c: Call)
    requires Consistent(t) && NoneBlocked(t)
    ensures NoneBlocked(After(t, c))
  {
  }

  /** The request rows of an unordered pair, and those of them that were accepted. */
  function RowsOf(t: Tables, a: Uuid, b: Uuid): set<Uuid> {
    set i | i in t.requests && Joins(t.requests[i], a, b)
  }

  function AcceptedRowsOf(t: Tables, a: Uuid, b: Uuid): set<Uuid> {
    set i | i in t.requests && IsAccepted(t, i) && Joins(t.requests[i], a, b)
  }

  lemma AtMostTwoRowsPerPair(t: Tables, a: Uuid, b: Uuid)
    requires Consistent(t)
    ensures |RowsOf(t, a, b)| <= 2
  {
    var forward := set i | i in t.requests && SameDirection(t.requests[i], a, b);
    var back := set i | i in t.requests && SameDirection(t.requests[i], b, a);
    AtMostOne(forward);
    AtMostOne(back);
    assert RowsOf(t, a, b) == forward + back;
  }

  lemma AtMostOne(s: set<Uuid>)
    requires forall x, y | x in s && y in s :: x == y
    ensures |s| <= 1
  {
    if x :| x in s {
      assert s == {x};
    }
  }

  predicate Befriends(t: Tables, c: Call, a: Uuid, b: Uuid)
    requires UniqueDirections(t)
  {
    c.AcceptCall? && Do(t, c).Success? && Joins(t.requests[c.id], a, b)
  }

  predicate Separates(t: Tables, c: Call, a: Uuid, b: Uuid)
    requires UniqueDirections(t)
  {
    c.UnfriendCall? && Do(t, c).Success? && ((c.user == a && c.friend == b) || (c.user == b && c.friend == a))
  }

  /** How often a run made the pair friends, and how often it separated them. */
  function TimesBefriended(calls: seq<Call>, a: Uuid, b: Uuid): nat {
    if calls == [] then 0
    else
      var n := |calls| - 1;
      TimesBefriended(calls[..n], a, b) + if Befriends(Run(calls[..n]), calls[n], a, b) then 1 else 0
  }

  function TimesSeparated(calls: seq<Call>, a: Uuid, b: Uuid): nat {
    if calls == [] then 0
    else
      var n := |calls| - 1;
      TimesSeparated(calls[..n], a, b) + if Separates(Run(calls[..n]), calls[n], a, b) then 1 else 0
  }

  predicate IsAccepted(t: Tables, i: Uuid) {
    i in t.requests && t.requests[i].status.Accepted?
  }

  lemma OnlyAcceptingAccepts(t: Tables, c: Call, i: Uuid)
    requires Consistent(t)
    ensures IsAccepted(After(t, c), i) <==> IsAccepted(t, i) || (c.AcceptCall? && Do(t, c).Success? && c.id == i)
    ensures IsAccepted(After(t, c), i) ==>
              i in t.requests && SameDirection(After(t, c).requests[i], t.requests[i].sender, t.requests[i].receiver)
  {
  }

  lemma AcceptedRowsGrowByBefriending(t: Tables, c: Call, a: Uuid, b: Uuid)
    requires Consistent(t)
    ensures |AcceptedRowsOf(After(t, c), a, b)| ==
            |AcceptedRowsOf(t, a, b)| + if Befriends(t, c, a, b) then 1 else 0
  {
    forall i
      ensures i in AcceptedRowsOf(After(t, c), a, b) <==>
              i in AcceptedRowsOf(t, a, b) || (Befriends(t, c, a, b) && i == c.id)
    {
      OnlyAcceptingAccepts(t, c, i);
    }
    if Befriends(t, c, a, b) {
      assert AcceptedRowsOf(After(t, c), a, b) == AcceptedRowsOf(t, a, b) + {c.id};
    } else {
      assert AcceptedRowsOf(After(t, c), a, b) == AcceptedRowsOf(t, a, b);
    }
  }

  lemma FriendshipChangesByCall(t: Tables, c: Call, a: Uuid, b: Uuid)
    requires Consistent(t) && a != b
    ensures Befriends(t, c, a, b) ==> (a, b) !in t.friendships && (a, b) in After(t, c).friendships
    ensures Separates(t, c, a, b) ==> (a, b) in t.friendships && (a, b) !in After(t, c).friendships
    ensures !Befriends(t, c, a, b) && !Separates(t, c, a, b) ==>
              ((a, b) in After(t, c).friendships <==> (a, b) in t.friendships)
  {
  }

  /**
   Over any run a pair is befriended exactly once per accepted request, hence at most twice ever,
   and it is friends now exactly if it was befriended once more than separated.
   */
  lemma {:induction false} FriendshipLedger(calls: seq<Call>, a: Uuid, b: Uuid)
    requires a != b
    ensures TimesBefriended(calls, a, b) == |AcceptedRowsOf(Run(calls), a, b)| <= 2
    ensures TimesBefriended(calls, a, b) - TimesSeparated(calls, a, b) ==
            if (a, b) in Run(calls).friendships then 1 else 0
  {
    AtMostTwoRowsPerPair(Run(calls), a, b);
    SubsetSize(AcceptedRowsOf(Run(calls), a, b), RowsOf(Run(calls), a, b));
    if calls == [] {
      assert AcceptedRowsOf(Run(calls), a, b) == {};
    } else {
      var n := |calls| - 1;
      FriendshipLedger(calls[..n], a, b);
      AcceptedRowsGrowByBefriending(Run(calls[..n]), calls[n], a, b);
      FriendshipChangesByCall(Run(calls[..n]), calls[n], a, b);
    }
  }

  /** A friend row names its user first: the mutual friends are the friends named in rows of both. */
  lemma MutualFriendsExactly(t: Tables, a: Uuid, b: Uuid, c: Uuid)
    ensures c in MutualFriends(t, a, b) <==> (a, c) in t.friendships && (b, c) in t.friendships
  {
  }

  /** get_mutual_friends: an answer either user would get, that names neither of them. */
  lemma MutualFriendsAreOthers(t: Tables, a: Uuid, b: Uuid, c: Uuid)
    requires Consistent(t)
    ensures c in MutualFriends(t, a, b) <==> (c, a) in t.friendships && (c, b) in t.friendships
    ensures c in MutualFriends(t, a, b) ==> c != a && c != b
    ensures MutualFriends(t, a, b) == MutualFriends(t, b, a)
  {
  }

  function FriendsOf(t: Tables, user: Uuid): set<Uuid> {
    set p | p in t.friendships && p.0 == user :: p.1
  }

  function MutualFriends(t: Tables, user: Uuid, other: Uuid): set<Uuid> {
    set f | f in FriendsOf(t, user) && f in FriendsOf(t, other)
  }

  // ---------- the repository and the use cases over it ----------

  class FriendService {
    var requests: map<Uuid, FriendRequest>
    var friendships: set<(Uuid, Uuid)>

    function State(): Tables
      reads this
    {
      Tables(requests, friendships)
    }

    ghost predicate Valid()
      reads this
    {
      Consistent(State())
    }

    constructor ()
      ensures Valid() && State() == Run([])
    {
      requests, friendships := map[], {};
    }

    method SendRequest(id: Uuid, sender: Uuid, receiver: Uuid) returns (error: Option<FriendError>)
      requires Valid()
      modifies this
      ensures Valid() && State() == After(old(State()), SendCall(id, sender, receiver))
      ensures error == ErrorOf(Do(old(State()), SendCall(id, sender, receiver)))
    {
      AfterKeepsConsistent(State(), SendCall(id, sender, receiver));
      if sender == receiver {
        return Some(CannotFriendSelf);
      }
      if (sender, receiver) in friendships {
        return Some(AlreadyFriends);
      }
      var existing := FindRequest(State(), sender, receiver);
      if existing.None? {
        existing := FindRequest(State(), receiver, sender);
      }
      if existing.Some? {
        if existing.value.status == Blocked {
          return Some(UserBlocked);
        }
        if existing.value.status == Pending {
          return Some(RequestAlreadyExists);
        }
      }
      if id in requests || HasRequest(State(), sender, receiver) {
        return Some(IntegrityError);
      }
      requests := requests[id := FriendRequest(sender, receiver, Pending)];
      return None;
    }

    method AcceptRequest(id: Uuid, user: Uuid) returns (error: Option<FriendError>)
      requires Valid()
      modifies this
      ensures Valid() && State() == After(old(State()), AcceptCall(id, user))
      ensures error == ErrorOf(Do(old(State()), AcceptCall(id, user)))
    {
      AfterKeepsConsistent(State(), AcceptCall(id, user));
      AcceptNeverViolatesUniqueness(State(), id, user);
      if id !in requests || requests[id].status != Pending || requests[id].receiver != user {
        return Some(RequestNotFound);
      }
      var accepted := requests[id].(status := Accepted);
      requests := requests[id := accepted];
      friendships := friendships + {(accepted.sender, accepted.receiver)};
      friendships := friendships + {(accepted.receiver, accepted.sender)};
      return None;
    }

    method RejectRequest(id: Uuid, user: Uuid) returns (error: Option<FriendError>)
      requires Valid()
      modifies this
      ensures Valid() && State() == After(old(State()), RejectCall(id, user))
      ensures error == ErrorOf(Do(old(State()), RejectCall(id, user)))
    {
      AfterKeepsConsistent(State(), RejectCall(id, user));
      if id !in requests || requests[id].status != Pending || requests[id].receiver != user {
        return Some(RequestNotFound);
      }
      requests := requests[id := requests[id].(status := Rejected)];
      return None;
    }

    method UnfriendUser(user: Uuid, friend: Uuid) returns (error: Option<FriendError>)
      requires Valid()
      modifies this
      ensures Valid() && State() == After(old(State()), UnfriendCall(user, friend))
      ensures error == ErrorOf(Do(old(State()), UnfriendCall(user, friend)))
    {
      AfterKeepsConsistent(State(), UnfriendCall(user, friend));
      if (user, friend) !in friendships {
        return Some(NotFriends);
      }
      friendships := friendships - {(user, friend), (friend, user)};
      return None;
    }
  }
}
