/** The `/msg` routes: create, the visibility query, mark-read, delete (tombstone),
    hide, two-stage clear and star, each one atomic step on the message store. */
module MessagesRoute {
  import opened Wrappers
  import opened Seqs
  import opened IdArrays
  import opened Http
  import opened MessageModel

  // ---------------------------------------------------------------- create

  /** JavaScript truthiness of an optional string: neither undefined/null nor "". */
  predicate Truthy(o: Option<string>) {
    o.Some? && o.value != ""
  }

  /** `POST /create`: 400 exactly when a participant or all content is missing,
      otherwise exactly one new record, with `text` defaulting to "". */
  method Create(store: MessageStore, senderId: Option<UserId>, receiverId: Option<UserId>,
                text: Option<string>, image: Option<string>, now: nat)
    returns (status: Status, saved: Option<Message>)
    requires store.Valid()
    modifies store
    ensures store.Valid()
    ensures status == BadRequest <==> !Truthy(senderId) || !Truthy(receiverId) || (!Truthy(text) && !Truthy(image))
    ensures status == BadRequest ==>
      saved == None && store.records == old(store.records) && store.nextId == old(store.nextId)
    ensures status != BadRequest ==>
      && status == Created && saved.Some?
      && store.records == old(store.records) + [saved.value]
      && store.nextId == old(store.nextId) + 1
      && saved.value == Message(ObjectId(old(store.nextId)), senderId.value, receiverId.value,
                                if Truthy(text) then text.value else "", image, now,
                                false, false, [], [])
      && forall m | m in old(store.records) :: m.id != saved.value.id
  {
    if !Truthy(senderId) || !Truthy(receiverId) || (!Truthy(text) && !Truthy(image)) {
      return BadRequest, None;
    }
    var m := Message(ObjectId(store.nextId), senderId.value, receiverId.value,
                     if Truthy(text) then text.value else "", image, now,
                     false, false, [], []);
    forall k | 0 <= k < |store.records| ensures store.records[k].id != m.id {
      assert store.records[k] in store.records;
    }
    store.records := store.records + [m];
    store.nextId := store.nextId + 1;
    status, saved := Created, Some(m);
  }

  // ---------------------------------------------------------------- get

  predicate SortedByTimestamp(ms: seq<Message>) {
    forall i, j | 0 <= i < j < |ms| :: ms[i].timestamp <= ms[j].timestamp
  }

  /** Inserts `m` before the first record that is not older than it. */
  function InsertByTimestamp(m: Message, ms: seq<Message>): (r: seq<Message>)
    requires SortedByTimestamp(ms)
    ensures SortedByTimestamp(r)
    ensures multiset(r) == multiset(ms) + multiset{m}
  {
    if ms == [] || m.timestamp <= ms[0].timestamp then [m] + ms
    else
      var rest := InsertByTimestamp(m, ms[1..]);
      InsertedNotOlder(m, ms, rest);
      [ms[0]] + rest
  }

  lemma InsertedNotOlder(m: Message, ms: seq<Message>, rest: seq<Message>)
    requires ms != [] && SortedByTimestamp(ms) && m.timestamp > ms[0].timestamp
    requires SortedByTimestamp(rest) && multiset(rest) == multiset(ms[1..]) + multiset{m}
    ensures SortedByTimestamp([ms[0]] + rest)
    ensures multiset([ms[0]] + rest) == multiset(ms) + multiset{m}
  {
    assert ms == [ms[0]] + ms[1..];
    forall x | x in rest ensures ms[0].timestamp <= x.timestamp {
      assert x in multiset(rest);
      if x != m {
        assert x in multiset(ms[1..]);
        var k :| 0 <= k < |ms[1..]| && ms[1..][k] == x;
        assert ms[1..][k] == ms[k + 1];
      }
    }
    var r := [ms[0]] + rest;
    forall i, j | 0 <= i < j < |r| ensures r[i].timestamp <= r[j].timestamp {
      if i == 0 {
        assert r[j] == rest[j - 1];
        assert rest[j - 1] in rest;
      } else {
        assert r[i] == rest[i - 1] && r[j] == rest[j - 1];
      }
    }
  }

  /** `.sort({ timestamp: 1 })` (a stable insertion sort). */
  function SortByTimestamp(ms: seq<Message>): (r: seq<Message>)
    ensures SortedByTimestamp(r)
    ensures multiset(r) == multiset(ms)
  {
    if ms == [] then []
    else
      assert ms == [ms[0]] + ms[1..];
      InsertByTimestamp(ms[0], SortByTimestamp(ms[1..]))
  }

  /** The filter the comments in `GET /get/:receiverId` describe. */
  predicate ConversationVisible(m: Message, viewer: UserId, peer: UserId) {
    InConversation(m, viewer, peer) && VisibleTo(m, viewer)
  }

  /** `GET /get/:receiverId` as intended: the {viewer, peer} conversation as the
      viewer sees it, oldest first. */
  function GetMessages(ms: seq<Message>, viewer: UserId, peer: UserId): (r: seq<Message>)
    ensures SortedByTimestamp(r)
    ensures forall m :: m in r <==> m in ms && InConversation(m, viewer, peer) && VisibleTo(m, viewer)
    ensures forall m :: multiset(r)[m] == if ConversationVisible(m, viewer, peer) then multiset(ms)[m] else 0
    ensures forall m | m in r :: m.senderId == viewer || m.receiverId == viewer
  {
    var f := Filter(ms, m => ConversationVisible(m, viewer, peer));
    var r := SortByTimestamp(f);
    forall m ensures multiset(r)[m] == if ConversationVisible(m, viewer, peer) then multiset(ms)[m] else 0 {
      FilterCount(ms, m => ConversationVisible(m, viewer, peer), m);
    }
    assert forall m :: m in r <==> m in multiset(r);
    assert forall m :: m in f <==> m in multiset(f);
    r
  }

  /** `GET /get/:receiverId` as written: the object literal repeats the key `$or`,
      JavaScript keeps the last one, and the conversation clause is lost. `peer`
      is therefore unused. */
  function GetMessagesAsWritten(ms: seq<Message>, viewer: UserId, peer: UserId): (r: seq<Message>)
    ensures SortedByTimestamp(r)
    ensures forall m :: m in r <==> m in ms && VisibleTo(m, viewer)
    ensures forall m :: multiset(r)[m] == if VisibleTo(m, viewer) then multiset(ms)[m] else 0
  {
    var f := Filter(ms, m => VisibleTo(m, viewer));
    var r := SortByTimestamp(f);
    forall m ensures multiset(r)[m] == if VisibleTo(m, viewer) then multiset(ms)[m] else 0 {
      FilterCount(ms, m => VisibleTo(m, viewer), m);
    }
    assert forall m :: m in r <==> m in multiset(r);
    assert forall m :: m in f <==> m in multiset(f);
    r
  }

  /** Every record the intended query returns, the written one returns as often. */
  lemma IntendedWithinAsWritten(ms: seq<Message>, viewer: UserId, peer: UserId)
    ensures multiset(GetMessages(ms, viewer, peer)) <= multiset(GetMessagesAsWritten(ms, viewer, peer))
  {
    var p := (m: Message) => ConversationVisible(m, viewer, peer);
    var q := (m: Message) => VisibleTo(m, viewer);
    forall m ensures multiset(Filter(ms, p))[m] <= multiset(Filter(ms, q))[m] {
      FilterCount(ms, p, m);
      FilterCount(ms, q, m);
    }
  }

  /** The written query hands a third party a message between two other users. */
  lemma AsWrittenLeaksOtherConversations()
    ensures
      var m := Message(ObjectId(0), "alice", "bob", "hi", None, 1, false, false, [], []);
      && m in GetMessagesAsWritten([m], "carol", "alice")
      && GetMessages([m], "carol", "alice") == []
  {
    var m := Message(ObjectId(0), "alice", "bob", "hi", None, 1, false, false, [], []);
    assert m in [m];
    assert !InConversation(m, "carol", "alice");
  }

  /** A just-created message is in the receiver's next fetch of the conversation,
      whatever was stored before. */
  lemma CreatedMessageFetched(ms: seq<Message>, m: Message)
    requires m.starredBy == [] && m.clearedBy == []
    ensures m in GetMessages(ms + [m], m.receiverId, m.senderId)
    ensures m in GetMessages(ms + [m], m.senderId, m.receiverId)
  {
  }

  // ---------------------------------------------------------------- mark-read

  function MarkOneRead(m: Message, reader: UserId, contact: UserId): Message {
    if m.senderId == contact && m.receiverId == reader && !m.isRead then m.(isRead := true) else m
  }

  /** `updateMany({senderId: contact, receiverId: reader, isRead: false}, {$set: {isRead: true}})`:
      exactly the records the contact sent to the reader end up read; nothing
      else changes, and a read record never becomes unread. */
  function MarkedRead(ms: seq<Message>, reader: UserId, contact: UserId): (r: seq<Message>)
    ensures |r| == |ms|
    ensures forall i | 0 <= i < |ms| ::
      r[i] == if ms[i].senderId == contact && ms[i].receiverId == reader then ms[i].(isRead := true) else ms[i]
    ensures forall i | 0 <= i < |ms| :: ms[i].isRead ==> r[i].isRead
  {
    Map(ms, m => MarkOneRead(m, reader, contact))
  }

  lemma MarkReadIdempotent(ms: seq<Message>, reader: UserId, contact: UserId)
    ensures MarkedRead(MarkedRead(ms, reader, contact), reader, contact) == MarkedRead(ms, reader, contact)
  {
  }

  /** `POST /mark-read/:contactId`. */
  method MarkRead(store: MessageStore, caller: UserId, contactId: UserId) returns (status: Status)
    requires store.Valid()
    modifies store`records
    ensures store.Valid()
    ensures status == Ok && store.records == MarkedRead(old(store.records), caller, contactId)
  {
    var before := store.records;
    store.records := MarkedRead(store.records, caller, contactId);
    forall m | m in store.records ensures WellFormed(m, store.nextId) {
      var i :| 0 <= i < |store.records| && store.records[i] == m;
      assert before[i] in before;
    }
    status := Ok;
  }

  // ---------------------------------------------------------------- delete

  function TombstoneFor(m: Message, caller: UserId): Message {
    m.(text := Tombstone, isDeleted := true, image := None, starredBy := Pull(m.starredBy, caller))
  }

  /** `findByIdAndUpdate(id, {$set: {text: Tombstone, isDeleted: true, image: null},
      $pull: {starredBy: caller}})`: the record with that id is tombstoned and loses
      only the caller's star; no other record and no other field changes. There is
      no check that the caller sent the message. */
  function DeletedById(ms: seq<Message>, id: MessageId, caller: UserId): (r: seq<Message>)
    ensures |r| == |ms|
    ensures forall i | 0 <= i < |ms| && ms[i].id != id :: r[i] == ms[i]
    ensures forall i | 0 <= i < |ms| && ms[i].id == id ::
      && r[i] == ms[i].(text := Tombstone, isDeleted := true, image := None, starredBy := r[i].starredBy)
      && forall u :: u in r[i].starredBy <==> u in ms[i].starredBy && u != caller
  {
    Map(ms, (m: Message) => if m.id == id then TombstoneFor(m, caller) else m)
  }

  /** `DELETE /delete/:messageId`: 500 when the id is not an ObjectId (the lookup's
      cast throws), otherwise 200 with the updated record or null. */
  method Delete(store: MessageStore, caller: UserId, messageId: MessageId)
    returns (status: Status, updated: Option<Message>)
    requires store.Valid()
    modifies store`records
    ensures store.Valid()
    ensures messageId.TempId? ==>
      status == ServerError && updated == None && store.records == old(store.records)
    ensures messageId.ObjectId? ==>
      && store.records == DeletedById(old(store.records), messageId, caller)
      && status == Ok && updated == FindById(store.records, messageId)
      && (updated.None? <==> FindById(old(store.records), messageId).None?)
  {
    if messageId.TempId? {
      return ServerError, None;
    }
    DeletedKeepsStore(store.records, messageId, caller, store.nextId);
    store.records := DeletedById(store.records, messageId, caller);
    status, updated := Ok, FindById(store.records, messageId);
  }

  /** Tombstoning keeps the store's invariant and which ids it holds. */
  lemma DeletedKeepsStore(ms: seq<Message>, id: MessageId, caller: UserId, nextId: nat)
    requires UniqueIds(ms) && forall m | m in ms :: WellFormed(m, nextId)
    ensures
      var r := DeletedById(ms, id, caller);
      && UniqueIds(r) && (forall m | m in r :: WellFormed(m, nextId))
      && (FindById(r, id).None? <==> FindById(ms, id).None?)
  {
    var r := DeletedById(ms, id, caller);
    forall m | m in r ensures WellFormed(m, nextId) {
      var i :| 0 <= i < |r| && r[i] == m;
      assert ms[i] in ms;
    }
    SameIdsFind(ms, r, id);
  }

  /** Two collections with the same ids position by position answer a lookup alike. */
  lemma {:induction false} SameIdsFind(a: seq<Message>, b: seq<Message>, id: MessageId)
    requires |a| == |b| && forall i | 0 <= i < |a| :: a[i].id == b[i].id
    ensures FindById(a, id).None? <==> FindById(b, id).None?
  {
    if a != [] {
      SameIdsFind(a[1..], b[1..], id);
    }
  }

  // ---------------------------------------------------------------- hide

  /** One record hidden from the caller: only the two arrays change, the caller is
      cleared and unstarred, and every other user's memberships stay. */
  function HiddenFor(m: Message, caller: UserId): (h: Message)
    ensures h == m.(clearedBy := h.clearedBy, starredBy := h.starredBy)
    ensures caller in h.clearedBy && caller !in h.starredBy && !VisibleTo(h, caller)
    ensures forall u | u != caller :: (u in h.clearedBy <==> u in m.clearedBy)
                                  && (u in h.starredBy <==> u in m.starredBy)
    ensures forall u | u != caller :: VisibleTo(h, u) == VisibleTo(m, u)
  {
    m.(clearedBy := AddToSet(m.clearedBy, caller), starredBy := Pull(m.starredBy, caller))
  }

  /** `findByIdAndUpdate(id, {$addToSet: {clearedBy: caller}, $pull: {starredBy: caller}})`:
      the record is hidden from the caller for good (their own star is dropped),
      while every other user's memberships, and so their view, stay as they were. */
  function HiddenById(ms: seq<Message>, id: MessageId, caller: UserId): (r: seq<Message>)
    ensures |r| == |ms|
    ensures forall i | 0 <= i < |ms| && ms[i].id != id :: r[i] == ms[i]
    ensures forall i | 0 <= i < |ms| && ms[i].id == id ::
      && r[i] == ms[i].(clearedBy := r[i].clearedBy, starredBy := r[i].starredBy)
      && caller in r[i].clearedBy && caller !in r[i].starredBy
      && !VisibleTo(r[i], caller)
      && (forall u | u != caller :: (u in r[i].clearedBy <==> u in ms[i].clearedBy)
                                 && (u in r[i].starredBy <==> u in ms[i].starredBy))
      && (forall u | u != caller :: VisibleTo(r[i], u) == VisibleTo(ms[i], u))
  {
    Map(ms, (m: Message) => if m.id == id then HiddenFor(m, caller) else m)
  }

  /** `POST /hide/:messageId`: 500 when the id is not an ObjectId, otherwise 200; a
      missing id changes nothing. */
  method Hide(store: MessageStore, caller: UserId, messageId: MessageId) returns (status: Status)
    requires store.Valid()
    modifies store`records
    ensures store.Valid()
    ensures messageId.TempId? ==> status == ServerError && store.records == old(store.records)
    ensures messageId.ObjectId? ==>
      status == Ok && store.records == HiddenById(old(store.records), messageId, caller)
  {
    if messageId.TempId? {
      return ServerError;
    }
    var before := store.records;
    store.records := HiddenById(store.records, messageId, caller);
    forall m | m in store.records ensures WellFormed(m, store.nextId) {
      var i :| 0 <= i < |store.records| && store.records[i] == m;
      assert before[i] in before;
    }
    status := Ok;
  }

  // ---------------------------------------------------------------- clear

  /** Stage 1's filter: the conversation's records the caller has not starred. */
  predicate ClearTarget(m: Message, caller: UserId, contact: UserId) {
    InConversation(m, caller, contact) && caller !in m.starredBy
  }

  function ClearOne(m: Message, caller: UserId, contact: UserId): Message {
    if ClearTarget(m, caller, contact) then m.(clearedBy := AddToSet(m.clearedBy, caller)) else m
  }

  /** Stage 1, `updateMany(conversationFilter, {$addToSet: {clearedBy: caller}})`. */
  function ClearStage1(ms: seq<Message>, caller: UserId, contact: UserId): (r: seq<Message>)
    ensures |r| == |ms|
    ensures forall i | 0 <= i < |ms| && !ClearTarget(ms[i], caller, contact) :: r[i] == ms[i]
    ensures forall i | 0 <= i < |ms| && ClearTarget(ms[i], caller, contact) ::
      && r[i] == ms[i].(clearedBy := r[i].clearedBy)
      && forall u :: u in r[i].clearedBy <==> u in ms[i].clearedBy || u == caller
  {
    Map(ms, m => ClearOne(m, caller, contact))
  }

  /** Stage 2's filter: `{...conversationFilter, clearedBy: {$all: [caller, contact]},
      starredBy: {$size: 0}}` (the later `starredBy` key replaces the spread one). */
  predicate Purgeable(m: Message, caller: UserId, contact: UserId) {
    InConversation(m, caller, contact) && caller in m.clearedBy && contact in m.clearedBy && m.starredBy == []
  }

  /** Stage 2, `deleteMany(...)`: exactly the purgeable records go, the rest keep their order. */
  function ClearStage2(ms: seq<Message>, caller: UserId, contact: UserId): (r: seq<Message>)
    ensures forall m :: m in r <==> m in ms && !Purgeable(m, caller, contact)
    ensures IsSubsequence(r, ms)
  {
    FilterIsSubsequence(ms, m => !Purgeable(m, caller, contact));
    Filter(ms, m => !Purgeable(m, caller, contact))
  }

  function Cleared(ms: seq<Message>, caller: UserId, contact: UserId): seq<Message> {
    ClearStage2(ClearStage1(ms, caller, contact), caller, contact)
  }

  /** A record survives a clear exactly unless it belongs to the conversation, nobody
      has starred it and the peer had already cleared it (or is the caller): a clear
      never purges a starred record or one the peer still sees. */
  lemma ClearPurgesExactly(ms: seq<Message>, caller: UserId, contact: UserId, i: nat)
    requires i < |ms|
    ensures ClearStage1(ms, caller, contact)[i] in Cleared(ms, caller, contact) <==>
      !(InConversation(ms[i], caller, contact) && ms[i].starredBy == []
        && (contact in ms[i].clearedBy || contact == caller))
  {
    var s1 := ClearStage1(ms, caller, contact);
    assert s1[i] in s1;
  }

  /** After a clear, the caller sees of the conversation exactly what they starred. */
  lemma VisibleAfterClear(ms: seq<Message>, caller: UserId, contact: UserId)
    ensures forall m | m in Cleared(ms, caller, contact) && InConversation(m, caller, contact) ::
      VisibleTo(m, caller) <==> caller in m.starredBy
  {
    var s1 := ClearStage1(ms, caller, contact);
    forall m | m in Cleared(ms, caller, contact) && InConversation(m, caller, contact)
      ensures VisibleTo(m, caller) <==> caller in m.starredBy
    {
      var i :| 0 <= i < |s1| && s1[i] == m;
    }
  }

  /** Once both participants have cleared, no unstarred record of their conversation remains. */
  lemma BothClearPurgesUnstarred(ms: seq<Message>, a: UserId, b: UserId)
    ensures forall m | m in Cleared(Cleared(ms, a, b), b, a) ::
      !(InConversation(m, a, b) && m.starredBy == [])
  {
    var x := Cleared(ms, a, b);
    var s1 := ClearStage1(ms, a, b);
    var t1 := ClearStage1(x, b, a);
    forall m | m in Cleared(x, b, a) ensures !(InConversation(m, a, b) && m.starredBy == []) {
      var j :| 0 <= j < |t1| && t1[j] == m;
      var y := x[j];
      assert y in s1;
      var i :| 0 <= i < |s1| && s1[i] == y;
    }
  }

  /** `POST /clear/:contactId`: stage 1 then stage 2, always 200. */
  method Clear(store: MessageStore, caller: UserId, contactId: UserId) returns (status: Status)
    requires store.Valid()
    modifies store`records
    ensures store.Valid()
    ensures status == Ok && store.records == Cleared(old(store.records), caller, contactId)
  {
    var before := store.records;
    var s1 := ClearStage1(store.records, caller, contactId);
    forall m | m in s1 ensures WellFormed(m, store.nextId) {
      var i :| 0 <= i < |s1| && s1[i] == m;
      assert before[i] in before;
    }
    assert UniqueIds(s1);
    FilterDistinctKeys(s1, (m: Message) => m.id, m => !Purgeable(m, caller, contactId));
    store.records := ClearStage2(s1, caller, contactId);
    status := Ok;
  }

  // ---------------------------------------------------------------- star

  function StarToggledFor(m: Message, caller: UserId): Message {
    m.(starredBy := Toggle(m.starredBy, caller))
  }

  /** The star route's read-modify-write on the record with that id: the caller's
      membership in `starredBy` flips, everyone else's stays. */
  function StarToggledById(ms: seq<Message>, id: MessageId, caller: UserId): (r: seq<Message>)
    ensures |r| == |ms|
    ensures forall i | 0 <= i < |ms| && ms[i].id != id :: r[i] == ms[i]
    ensures forall i | 0 <= i < |ms| && ms[i].id == id ::
      && r[i] == ms[i].(starredBy := r[i].starredBy)
      && (forall u | u != caller :: u in r[i].starredBy <==> u in ms[i].starredBy)
      && (NoDup(ms[i].starredBy) ==> (caller in r[i].starredBy <==> caller !in ms[i].starredBy))
  {
    Map(ms, (m: Message) => if m.id == id then StarToggledFor(m, caller) else m)
  }

  /** Toggling the same star twice leaves every record with the same set of starrers. */
  lemma StarTwiceRestores(ms: seq<Message>, id: MessageId, caller: UserId)
    requires forall m | m in ms :: NoDup(m.starredBy)
    ensures
      var r := StarToggledById(StarToggledById(ms, id, caller), id, caller);
      && |r| == |ms|
      && forall i | 0 <= i < |ms| ::
        && r[i] == ms[i].(starredBy := r[i].starredBy)
        && forall u :: u in r[i].starredBy <==> u in ms[i].starredBy
  {
    var once := StarToggledById(ms, id, caller);
    var r := StarToggledById(once, id, caller);
    forall i | 0 <= i < |ms| ensures forall u :: u in r[i].starredBy <==> u in ms[i].starredBy {
      assert ms[i] in ms;
      if ms[i].id == id {
        ToggleTwice(ms[i].starredBy, caller);
      }
    }
  }

  /** `POST /star/:messageId`: 500 when the id is not an ObjectId, 404 and no change
      for a missing id, otherwise 200 with the updated record. */
  method ToggleStar(store: MessageStore, caller: UserId, messageId: MessageId)
    returns (status: Status, updated: Option<Message>)
    requires store.Valid()
    modifies store`records
    ensures store.Valid()
    ensures messageId.TempId? ==>
      status == ServerError && updated == None && store.records == old(store.records)
    ensures messageId.ObjectId? && FindById(old(store.records), messageId).None? ==>
      status == NotFound && updated == None && store.records == old(store.records)
    ensures messageId.ObjectId? && FindById(old(store.records), messageId).Some? ==>
      && status == Ok
      && store.records == StarToggledById(old(store.records), messageId, caller)
      && updated == FindById(store.records, messageId)
      && updated.Some?
  {
    if messageId.TempId? {
      return ServerError, None;
    }
    var found := FindById(store.records, messageId);
    if found.None? {
      return NotFound, None;
    }
    StarToggledKeepsStore(store.records, messageId, caller, store.nextId);
    store.records := StarToggledById(store.records, messageId, caller);
    status, updated := Ok, FindById(store.records, messageId);
  }

  /** Toggling a star keeps the store's invariant and which ids it holds. */
  lemma StarToggledKeepsStore(ms: seq<Message>, id: MessageId, caller: UserId, nextId: nat)
    requires UniqueIds(ms) && forall m | m in ms :: WellFormed(m, nextId)
    ensures
      var r := StarToggledById(ms, id, caller);
      && UniqueIds(r) && (forall m | m in r :: WellFormed(m, nextId))
      && (FindById(r, id).None? <==> FindById(ms, id).None?)
  {
    var r := StarToggledById(ms, id, caller);
    forall m | m in r ensures WellFormed(m, nextId) {
      var i :| 0 <= i < |r| && r[i] == m;
      assert ms[i] in ms;
    }
    SameIdsFind(ms, r, id);
  }
}
