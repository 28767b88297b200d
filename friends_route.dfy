/** The `/friends` routes that change state: send-request, accept-request,
    reject-request and unfriend (which also deletes the conversation). */
module FriendsRoute {
  import opened Seqs
  import opened IdArrays
  import opened Http
  import opened MessageModel
  import opened UserModel

  // ---------------------------------------------------------------- send-request

  /** The two `$addToSet` updates of a successful request: the recipient joins the
      sender's `friendRequestsSent`, the sender the recipient's `friendRequestsReceived`. */
  function RequestSent(us: seq<User>, sender: UserId, recipient: UserId): (r: seq<User>)
    ensures |r| == |us|
    ensures forall k | 0 <= k < |us| ::
      r[k] == us[k].(friendRequestsSent := r[k].friendRequestsSent,
                     friendRequestsReceived := r[k].friendRequestsReceived)
    ensures forall k, y | 0 <= k < |us| ::
      y in r[k].friendRequestsSent <==> y in us[k].friendRequestsSent || (us[k].id == sender && y == recipient)
    ensures forall k, y | 0 <= k < |us| ::
      y in r[k].friendRequestsReceived <==> y in us[k].friendRequestsReceived || (us[k].id == recipient && y == sender)
    ensures forall k | 0 <= k < |us| :: UserWellFormed(us[k]) ==> UserWellFormed(r[k])
  {
    var a := UpdateUser(us, sender, (u: User) => u.(friendRequestsSent := AddToSet(u.friendRequestsSent, recipient)));
    UpdateUser(a, recipient, (u: User) => u.(friendRequestsReceived := AddToSet(u.friendRequestsReceived, sender)))
  }

  lemma RequestSentKeepsConsistent(us: seq<User>, sender: UserId, recipient: UserId)
    requires Consistent(us)
    ensures Consistent(RequestSent(us, sender, recipient))
  {
    var r := RequestSent(us, sender, recipient);
    assert UniqueUserIds(r);
    forall u | u in r ensures UserWellFormed(u) {
      var k :| 0 <= k < |r| && r[k] == u;
      assert us[k] in us;
    }
    assert FriendsSymmetric(r) by {
      forall i, j | 0 <= i < |r| && 0 <= j < |r|
        ensures r[j].id in r[i].friends <==> r[i].id in r[j].friends
      {
      }
    }
    assert RequestsPaired(r) by {
      forall i, j | 0 <= i < |r| && 0 <= j < |r|
        ensures r[j].id in r[i].friendRequestsSent <==> r[i].id in r[j].friendRequestsReceived
      {
      }
    }
  }

  /** Why `POST /send-request` turns a request down, in the order it checks. */
  predicate AlreadyLinked(me: User, other: UserId) {
    other in me.friends || other in me.friendRequestsSent || other in me.friendRequestsReceived
  }

  /** `POST /send-request`: 404 for an unknown email; 400 for oneself, an existing
      friend, or a request already pending in either direction; each of these leaves
      the table as it was. Otherwise 200 and both request arrays gain the other id. */
  method SendRequest(users: UserTable, caller: UserId, recipientEmail: string) returns (status: Status)
    requires users.Valid() && FindUser(users.records, caller).Some?
    modifies users
    ensures users.Valid()
    ensures
      var me := FindUser(old(users.records), caller).value;
      var found := FindByEmail(old(users.records), recipientEmail);
      && (status == NotFound <==> found.None?)
      && (status == BadRequest <==> found.Some? && (found.value.id == caller || AlreadyLinked(me, found.value.id)))
      && (status == Ok <==> found.Some? && found.value.id != caller && !AlreadyLinked(me, found.value.id))
      && (status != Ok ==> users.records == old(users.records))
      && (status == Ok ==> users.records == RequestSent(old(users.records), caller, found.value.id))
  {
    var me := FindUser(users.records, caller).value;
    var found := FindByEmail(users.records, recipientEmail);
    if found.None? {
      return NotFound;
    }
    var recipient := found.value;
    if recipient.id == caller {
      return BadRequest;
    }
    if recipient.id in me.friends {
      return BadRequest;
    }
    if recipient.id in me.friendRequestsSent {
      return BadRequest;
    }
    if recipient.id in me.friendRequestsReceived {
      return BadRequest;
    }
    RequestSentKeepsConsistent(users.records, caller, recipient.id);
    users.records := RequestSent(users.records, caller, recipient.id);
    status := Ok;
  }

  // ---------------------------------------------------------------- accept / reject

  /** The two updates of `POST /accept-request`: the pending entries on both sides go
      and each user joins the other's `friends`. Whether a request was pending is
      not checked. */
  function Accepted(us: seq<User>, recipient: UserId, requester: UserId): (r: seq<User>)
    ensures |r| == |us|
    ensures forall k | 0 <= k < |us| :: r[k].id == us[k].id && r[k].email == us[k].email
    ensures forall k, y | 0 <= k < |us| ::
      y in r[k].friends <==> y in us[k].friends
                             || (us[k].id == recipient && y == requester)
                             || (us[k].id == requester && y == recipient)
    ensures forall k, y | 0 <= k < |us| ::
      y in r[k].friendRequestsSent <==> y in us[k].friendRequestsSent && !(us[k].id == requester && y == recipient)
    ensures forall k, y | 0 <= k < |us| ::
      y in r[k].friendRequestsReceived <==> y in us[k].friendRequestsReceived && !(us[k].id == recipient && y == requester)
    ensures forall k | 0 <= k < |us| :: UserWellFormed(us[k]) ==> UserWellFormed(r[k])
  {
    var a := UpdateUser(us, recipient, (u: User) => u.(friendRequestsReceived := Pull(u.friendRequestsReceived, requester),
                                               friends := AddToSet(u.friends, requester)));
    UpdateUser(a, requester, (u: User) => u.(friendRequestsSent := Pull(u.friendRequestsSent, recipient),
                                     friends := AddToSet(u.friends, recipient)))
  }

  lemma AcceptedKeepsConsistent(us: seq<User>, recipient: UserId, requester: UserId)
    requires Consistent(us)
    ensures Consistent(Accepted(us, recipient, requester))
  {
    var r := Accepted(us, recipient, requester);
    assert UniqueUserIds(r);
    forall u | u in r ensures UserWellFormed(u) {
      var k :| 0 <= k < |r| && r[k] == u;
      assert us[k] in us;
    }
    assert FriendsSymmetric(r) by {
      forall i, j | 0 <= i < |r| && 0 <= j < |r|
        ensures r[j].id in r[i].friends <==> r[i].id in r[j].friends
      {
      }
    }
    assert RequestsPaired(r) by {
      forall i, j | 0 <= i < |r| && 0 <= j < |r|
        ensures r[j].id in r[i].friendRequestsSent <==> r[i].id in r[j].friendRequestsReceived
      {
      }
    }
  }

  /** After an accept, the two users are friends of each other and neither has a
      request pending towards the other. */
  lemma AcceptMakesFriends(us: seq<User>, recipient: UserId, requester: UserId, i: nat, j: nat)
    requires i < |us| && j < |us| && us[i].id == recipient && us[j].id == requester
    ensures
      var r := Accepted(us, recipient, requester);
      && requester in r[i].friends && recipient in r[j].friends
      && requester !in r[i].friendRequestsReceived && recipient !in r[j].friendRequestsSent
  {
  }

  /** `POST /reject-request`: both pending entries go, `friends` is untouched. */
  function Rejected(us: seq<User>, recipient: UserId, requester: UserId): (r: seq<User>)
    ensures |r| == |us|
    ensures forall k | 0 <= k < |us| ::
      r[k] == us[k].(friendRequestsSent := r[k].friendRequestsSent,
                     friendRequestsReceived := r[k].friendRequestsReceived)
    ensures forall k, y | 0 <= k < |us| ::
      y in r[k].friendRequestsSent <==> y in us[k].friendRequestsSent && !(us[k].id == requester && y == recipient)
    ensures forall k, y | 0 <= k < |us| ::
      y in r[k].friendRequestsReceived <==> y in us[k].friendRequestsReceived && !(us[k].id == recipient && y == requester)
    ensures forall k | 0 <= k < |us| :: UserWellFormed(us[k]) ==> UserWellFormed(r[k])
  {
    var a := UpdateUser(us, recipient, (u: User) => u.(friendRequestsReceived := Pull(u.friendRequestsReceived, requester)));
    UpdateUser(a, requester, (u: User) => u.(friendRequestsSent := Pull(u.friendRequestsSent, recipient)))
  }

  lemma RejectedKeepsConsistent(us: seq<User>, recipient: UserId, requester: UserId)
    requires Consistent(us)
    ensures Consistent(Rejected(us, recipient, requester))
  {
    var r := Rejected(us, recipient, requester);
    assert UniqueUserIds(r);
    forall u | u in r ensures UserWellFormed(u) {
      var k :| 0 <= k < |r| && r[k] == u;
      assert us[k] in us;
    }
    assert FriendsSymmetric(r) by {
      forall i, j | 0 <= i < |r| && 0 <= j < |r|
        ensures r[j].id in r[i].friends <==> r[i].id in r[j].friends
      {
      }
    }
    assert RequestsPaired(r) by {
      forall i, j | 0 <= i < |r| && 0 <= j < |r|
        ensures r[j].id in r[i].friendRequestsSent <==> r[i].id in r[j].friendRequestsReceived
      {
      }
    }
  }

  /** `POST /accept-request/:requesterId`: 404 and no change for an unknown requester. */
  method AcceptRequest(users: UserTable, caller: UserId, requesterId: UserId) returns (status: Status)
    requires users.Valid()
    modifies users
    ensures users.Valid()
    ensures FindUser(old(users.records), requesterId).None? ==>
      status == NotFound && users.records == old(users.records)
    ensures FindUser(old(users.records), requesterId).Some? ==>
      status == Ok && users.records == Accepted(old(users.records), caller, requesterId)
  {
    if FindUser(users.records, requesterId).None? {
      return NotFound;
    }
    AcceptedKeepsConsistent(users.records, caller, requesterId);
    users.records := Accepted(users.records, caller, requesterId);
    status := Ok;
  }

  /** `POST /reject-request/:requesterId`: always 200. */
  method RejectRequest(users: UserTable, caller: UserId, requesterId: UserId) returns (status: Status)
    requires users.Valid()
    modifies users
    ensures users.Valid()
    ensures status == Ok && users.records == Rejected(old(users.records), caller, requesterId)
  {
    RejectedKeepsConsistent(users.records, caller, requesterId);
    users.records := Rejected(users.records, caller, requesterId);
    status := Ok;
  }

  // ---------------------------------------------------------------- unfriend

  /** The two `$pull` updates of `POST /unfriend`: each user leaves the other's `friends`. */
  function Unfriended(us: seq<User>, caller: UserId, friend: UserId): (r: seq<User>)
    ensures |r| == |us|
    ensures forall k | 0 <= k < |us| :: r[k] == us[k].(friends := r[k].friends)
    ensures forall k, y | 0 <= k < |us| ::
      y in r[k].friends <==> y in us[k].friends
                             && !(us[k].id == caller && y == friend)
                             && !(us[k].id == friend && y == caller)
    ensures forall k | 0 <= k < |us| :: UserWellFormed(us[k]) ==> UserWellFormed(r[k])
  {
    var a := UpdateUser(us, caller, (u: User) => u.(friends := Pull(u.friends, friend)));
    UpdateUser(a, friend, (u: User) => u.(friends := Pull(u.friends, caller)))
  }

  lemma UnfriendedKeepsConsistent(us: seq<User>, caller: UserId, friend: UserId)
    requires Consistent(us)
    ensures Consistent(Unfriended(us, caller, friend))
  {
    var r := Unfriended(us, caller, friend);
    assert UniqueUserIds(r);
    forall u | u in r ensures UserWellFormed(u) {
      var k :| 0 <= k < |r| && r[k] == u;
      assert us[k] in us;
    }
    assert FriendsSymmetric(r) by {
      forall i, j | 0 <= i < |r| && 0 <= j < |r|
        ensures r[j].id in r[i].friends <==> r[i].id in r[j].friends
      {
      }
    }
    assert RequestsPaired(r) by {
      forall i, j | 0 <= i < |r| && 0 <= j < |r|
        ensures r[j].id in r[i].friendRequestsSent <==> r[i].id in r[j].friendRequestsReceived
      {
      }
    }
  }

  /** `Message.deleteMany` over the pair's conversation: exactly its records go, all
      others stay in order. */
  function ConversationDeleted(ms: seq<Message>, a: UserId, b: UserId): (r: seq<Message>)
    ensures forall m :: m in r <==> m in ms && !InConversation(m, a, b)
    ensures IsSubsequence(r, ms)
  {
    FilterIsSubsequence(ms, m => !InConversation(m, a, b));
    Filter(ms, m => !InConversation(m, a, b))
  }

  /** `POST /unfriend/:friendId`: always 200. */
  method Unfriend(users: UserTable, store: MessageStore, caller: UserId, friendId: UserId) returns (status: Status)
    requires users.Valid() && store.Valid()
    modifies users, store`records
    ensures users.Valid() && store.Valid()
    ensures status == Ok
    ensures users.records == Unfriended(old(users.records), caller, friendId)
    ensures store.records == ConversationDeleted(old(store.records), caller, friendId)
  {
    UnfriendedKeepsConsistent(users.records, caller, friendId);
    users.records := Unfriended(users.records, caller, friendId);
    FilterDistinctKeys(store.records, (m: Message) => m.id, m => !InConversation(m, caller, friendId));
    store.records := ConversationDeleted(store.records, caller, friendId);
    status := Ok;
  }
}
