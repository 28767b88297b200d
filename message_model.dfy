/** The message record, with every field the routes read or write (the schema file
    declares only senderId, receiverId, text, image and timestamp), and the
    message collection. */
module MessageModel {
  import opened Wrappers
  import opened Seqs
  import opened IdArrays

  /** A MongoDB ObjectId (modelled by a counter) or a client-side `temp_<Date.now()>` id. */
  datatype MessageId = ObjectId(n: nat) | TempId(stamp: nat)

  datatype Message = Message(
    id: MessageId,
    senderId: UserId,
    receiverId: UserId,
    text: string,
    image: Option<string>,
    timestamp: nat,
    isRead: bool,
    isDeleted: bool,
    starredBy: seq<UserId>,
    clearedBy: seq<UserId>)

  /** The text a deleted message is rewritten to, on the server and on the client. */
  const Tombstone: string := "This message was deleted"

  /** `$or: [{senderId: a, receiverId: b}, {senderId: b, receiverId: a}]` */
  predicate InConversation(m: Message, a: UserId, b: UserId) {
    (m.senderId == a && m.receiverId == b) || (m.senderId == b && m.receiverId == a)
  }

  /** `$or: [{senderId: u}, {receiverId: u}]` */
  predicate Involves(m: Message, u: UserId) {
    m.senderId == u || m.receiverId == u
  }

  /** `$or: [{clearedBy: {$nin: [v]}}, {starredBy: {$in: [v]}}]`: a star overrides a clear. */
  predicate VisibleTo(m: Message, v: UserId) {
    v !in m.clearedBy || v in m.starredBy
  }

  predicate UniqueIds(ms: seq<Message>) {
    DistinctKeys(ms, (m: Message) => m.id)
  }

  /** `Message.findById(id)`: the record with that id, or null. */
  function FindById(ms: seq<Message>, id: MessageId): Option<Message> {
    FindFirst(ms, (m: Message) => m.id == id)
  }

  /** With unique ids, a record found by id is the only one with that id. */
  lemma {:induction false} FindByIdUnique(ms: seq<Message>, i: nat)
    requires UniqueIds(ms) && i < |ms|
    ensures FindById(ms, ms[i].id) == Some(ms[i])
  {
    if i > 0 {
      assert ms[0].id != ms[i].id;
      assert UniqueIds(ms[1..]) by {
        forall a, b | 0 <= a < b < |ms[1..]| ensures ms[1..][a].id != ms[1..][b].id {
          assert ms[1..][a] == ms[a + 1] && ms[1..][b] == ms[b + 1];
        }
      }
      FindByIdUnique(ms[1..], i - 1);
    }
  }

  /** A stored record: a server-assigned id below the next one to hand out, and
      duplicate-free per-user arrays. */
  predicate WellFormed(m: Message, nextId: nat) {
    m.id.ObjectId? && m.id.n < nextId && NoDup(m.starredBy) && NoDup(m.clearedBy)
  }

  /** The `messages` collection. */
  class MessageStore {
    var records: seq<Message>
    var nextId: nat

    ghost predicate Valid()
      reads this
    {
      UniqueIds(records) && forall m | m in records :: WellFormed(m, nextId)
    }

    constructor ()
      ensures Valid() && records == [] && nextId == 0
    {
      records := [];
      nextId := 0;
    }
  }
}
