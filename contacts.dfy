/** The contacts sidebar's two pieces of state, `friends` (an ordered list) and
    `onlineUsers` (an id-to-true object), and the three socket handlers that
    rewrite them. Each handler is a pure transform of the previous state. */
module Contacts {
  import opened Seqs
  import opened IdArrays

  /** A friend as `GET /friends/list` returns it: `_id`, `name`, `picture`, `email`. */
  datatype Friend = Friend(id: UserId, name: string, picture: string, email: string)

  // ---------------------------------------------------------------- online users

  /** One step of `usersArray.reduce((acc, userId) => { acc[userId] = true; ... }, acc)`. */
  function MarkOnline(acc: map<UserId, bool>, xs: seq<UserId>): (r: map<UserId, bool>)
    ensures forall k :: k in r <==> k in acc || k in xs
    ensures forall k | k in r :: r[k] == (k in xs || acc[k])
    decreases xs
  {
    if xs == [] then acc
    else
      assert xs == [xs[0]] + xs[1..];
      MarkOnline(acc[xs[0] := true], xs[1..])
  }

  /** `handleOnlineUsers`: the object built from the array, starting from `{}`. */
  function OnlineUsers(xs: seq<UserId>): (r: map<UserId, bool>)
    ensures forall k :: k in r <==> k in xs
    ensures forall k | k in r :: r[k]
  {
    MarkOnline(map[], xs)
  }

  /** `onlineUsers[friend._id]` read as a condition: a missing key is `undefined`. */
  predicate IsOnline(online: map<UserId, bool>, id: UserId) {
    id in online && online[id]
  }

  /** A contact shows the online dot exactly when the server listed its id. */
  lemma OnlineIffListed(xs: seq<UserId>, id: UserId)
    ensures IsOnline(OnlineUsers(xs), id) <==> id in xs
  {
  }

  /** The object depends only on which ids occur, not on their order or repetition. */
  lemma {:induction false} OnlineUsersIgnoresOrder(xs: seq<UserId>, ys: seq<UserId>)
    requires forall k :: k in xs <==> k in ys
    ensures OnlineUsers(xs) == OnlineUsers(ys)
  {
    var a := OnlineUsers(xs);
    var b := OnlineUsers(ys);
    assert a.Keys == b.Keys;
    forall k | k in a ensures a[k] == b[k] {
    }
  }

  // ---------------------------------------------------------------- friends list

  predicate UniqueFriendIds(fs: seq<Friend>) {
    DistinctKeys(fs, (f: Friend) => f.id)
  }

  predicate HasFriend(fs: seq<Friend>, id: UserId) {
    exists f | f in fs :: f.id == id
  }

  /** `handleAccountDeletion`: the friends with that id go, every other friend stays
      as often as before and in the same order. */
  function WithoutDeleted(fs: seq<Friend>, deletedUserId: UserId): (r: seq<Friend>)
    ensures !HasFriend(r, deletedUserId)
    ensures forall f: Friend | f.id != deletedUserId :: multiset(r)[f] == multiset(fs)[f]
    ensures IsSubsequence(r, fs)
    ensures !HasFriend(fs, deletedUserId) ==> r == fs
  {
    WithoutDeletedFacts(fs, deletedUserId);
    Filter(fs, (f: Friend) => f.id != deletedUserId)
  }

  lemma WithoutDeletedFacts(fs: seq<Friend>, deletedUserId: UserId)
    ensures var r := Filter(fs, (f: Friend) => f.id != deletedUserId);
      && (forall f: Friend | f.id != deletedUserId :: multiset(r)[f] == multiset(fs)[f])
      && IsSubsequence(r, fs)
      && (!HasFriend(fs, deletedUserId) ==> r == fs)
  {
    var p := (f: Friend) => f.id != deletedUserId;
    FilterIsSubsequence(fs, p);
    forall f: Friend | f.id != deletedUserId ensures multiset(Filter(fs, p))[f] == multiset(fs)[f] {
      FilterCount(fs, p, f);
    }
    if !HasFriend(fs, deletedUserId) {
      FilterKeepsAll(fs, p);
    }
  }

  /** Removing a deleted account keeps the ids of the list distinct. */
  lemma WithoutDeletedKeepsUnique(fs: seq<Friend>, deletedUserId: UserId)
    requires UniqueFriendIds(fs)
    ensures UniqueFriendIds(WithoutDeleted(fs, deletedUserId))
  {
    FilterDistinctKeys(fs, (f: Friend) => f.id, (f: Friend) => f.id != deletedUserId);
  }

  /** `handleFriendListUpdated`: a friend whose id is already listed changes nothing;
      otherwise the new friend is appended at the end. */
  function WithFriendAdded(fs: seq<Friend>, newFriend: Friend): (r: seq<Friend>)
    ensures HasFriend(fs, newFriend.id) ==> r == fs
    ensures !HasFriend(fs, newFriend.id) ==> r == fs + [newFriend]
    ensures HasFriend(r, newFriend.id)
  {
    if exists f | f in fs :: f.id == newFriend.id then fs
    else
      assert (fs + [newFriend])[|fs|] == newFriend;
      fs + [newFriend]
  }

  /** The duplicate guard: a list with distinct ids keeps them distinct. */
  lemma WithFriendAddedKeepsUnique(fs: seq<Friend>, newFriend: Friend)
    requires UniqueFriendIds(fs)
    ensures UniqueFriendIds(WithFriendAdded(fs, newFriend))
  {
    var r := WithFriendAdded(fs, newFriend);
    if !HasFriend(fs, newFriend.id) {
      forall i, j | 0 <= i < j < |r| ensures r[i].id != r[j].id {
        if j == |fs| {
          assert r[i] == fs[i] && fs[i] in fs;
        } else {
          assert r[i] == fs[i] && r[j] == fs[j];
        }
      }
    }
  }

  /** Receiving the same `friendListUpdated` event twice has the effect of receiving it once. */
  lemma WithFriendAddedIdempotent(fs: seq<Friend>, newFriend: Friend)
    ensures WithFriendAdded(WithFriendAdded(fs, newFriend), newFriend) == WithFriendAdded(fs, newFriend)
  {
  }
}
