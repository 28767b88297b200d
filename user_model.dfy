/** The user record as the friend routes use it (the schema file declares `friends`
    but not the two request arrays) and the user collection. */
module UserModel {
  import opened Wrappers
  import opened Seqs
  import opened IdArrays

  datatype User = User(
    id: UserId,
    email: string,
    friends: seq<UserId>,
    friendRequestsSent: seq<UserId>,
    friendRequestsReceived: seq<UserId>)

  predicate UniqueUserIds(us: seq<User>) {
    DistinctKeys(us, (u: User) => u.id)
  }

  /** `User.findById(id)`. */
  function FindUser(us: seq<User>, id: UserId): Option<User> {
    FindFirst(us, (u: User) => u.id == id)
  }

  /** `User.findOne({ email })`: the first user with that email. */
  function FindByEmail(us: seq<User>, email: string): Option<User> {
    FindFirst(us, (u: User) => u.email == email)
  }

  /** `User.findByIdAndUpdate(id, update)`: `f` applied to the user with that id, if any. */
  function UpdateUser(us: seq<User>, id: UserId, f: User -> User): (r: seq<User>)
    ensures |r| == |us|
    ensures forall k | 0 <= k < |us| :: r[k] == if us[k].id == id then f(us[k]) else us[k]
  {
    Map(us, (u: User) => if u.id == id then f(u) else u)
  }

  /** Friendship is mutual between any two users in the table. */
  predicate FriendsSymmetric(us: seq<User>) {
    forall i, j | 0 <= i < |us| && 0 <= j < |us| ::
      us[j].id in us[i].friends <==> us[i].id in us[j].friends
  }

  /** A request is pending on both sides or on neither. */
  predicate RequestsPaired(us: seq<User>) {
    forall i, j | 0 <= i < |us| && 0 <= j < |us| ::
      us[j].id in us[i].friendRequestsSent <==> us[i].id in us[j].friendRequestsReceived
  }

  predicate UserWellFormed(u: User) {
    NoDup(u.friends) && NoDup(u.friendRequestsSent) && NoDup(u.friendRequestsReceived)
  }

  /** The consistency every friend route keeps. */
  predicate Consistent(us: seq<User>) {
    && UniqueUserIds(us)
    && (forall u | u in us :: UserWellFormed(u))
    && FriendsSymmetric(us)
    && RequestsPaired(us)
  }

  /** The `users` collection. */
  class UserTable {
    var records: seq<User>

    ghost predicate Valid()
      reads this
    {
      Consistent(records)
    }

    constructor (initial: seq<User>)
      requires Consistent(initial)
      ensures Valid() && records == initial
    {
      records := initial;
    }
  }
}
