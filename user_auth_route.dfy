/** `POST /auth/delete`: permanent account removal, cascading to every message the
    account sent or received. */
module UserAuthRoute {
  import opened Wrappers
  import opened Seqs
  import opened IdArrays
  import opened Http
  import opened MessageModel
  import opened UserModel

  /** `Message.deleteMany({$or: [{senderId: u}, {receiverId: u}]})`. */
  function MessagesWithout(ms: seq<Message>, u: UserId): (r: seq<Message>)
    ensures forall m :: m in r <==> m in ms && !Involves(m, u)
    ensures IsSubsequence(r, ms)
  {
    FilterIsSubsequence(ms, m => !Involves(m, u));
    Filter(ms, m => !Involves(m, u))
  }

  /** `User.findByIdAndDelete(u)`: the record goes, every other record stays as it
      was (ids of the deleted user in other users' arrays are not cleaned up). */
  function UsersWithout(us: seq<User>, u: UserId): (r: seq<User>)
    ensures forall x :: x in r <==> x in us && x.id != u
    ensures IsSubsequence(r, us)
  {
    FilterIsSubsequence(us, (x: User) => x.id != u);
    Filter(us, (x: User) => x.id != u)
  }

  /** Removing users keeps the table consistent among the users that remain. */
  lemma UsersWithoutKeepsConsistent(us: seq<User>, u: UserId)
    requires Consistent(us)
    ensures Consistent(UsersWithout(us, u))
  {
    var r := UsersWithout(us, u);
    FilterDistinctKeys(us, (x: User) => x.id, (x: User) => x.id != u);
    forall i, j | 0 <= i < |r| && 0 <= j < |r|
      ensures r[j].id in r[i].friends <==> r[i].id in r[j].friends
      ensures r[j].id in r[i].friendRequestsSent <==> r[i].id in r[j].friendRequestsReceived
    {
      assert r[i] in r && r[j] in r;
      var a :| 0 <= a < |us| && us[a] == r[i];
      var b :| 0 <= b < |us| && us[b] == r[j];
    }
  }

  /** `POST /delete`: 401 and no change without a session; otherwise the account and
      every message it sent or received are gone, and nothing else changes. */
  method DeleteAccount(users: UserTable, store: MessageStore, session: Option<UserId>) returns (status: Status)
    requires users.Valid() && store.Valid()
    modifies users, store`records
    ensures users.Valid() && store.Valid()
    ensures session.None? ==>
      status == Unauthorized && users.records == old(users.records) && store.records == old(store.records)
    ensures session.Some? ==>
      && status == Ok
      && users.records == UsersWithout(old(users.records), session.value)
      && store.records == MessagesWithout(old(store.records), session.value)
  {
    if session.None? {
      return Unauthorized;
    }
    var u := session.value;
    FilterDistinctKeys(store.records, (m: Message) => m.id, m => !Involves(m, u));
    store.records := MessagesWithout(store.records, u);
    UsersWithoutKeepsConsistent(users.records, u);
    users.records := UsersWithout(users.records, u);
    status := Ok;
  }
}
