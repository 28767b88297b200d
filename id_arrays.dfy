/** The arrays of user ids a record holds (`starredBy`, `clearedBy`, `friends`,
    `friendRequestsSent`, `friendRequestsReceived`) and the three ways the routes
    change them: MongoDB's `$addToSet` and `$pull`, and the star route's
    `indexOf` / `splice` / `push` read-modify-write. */
module IdArrays {
  import opened Seqs

  type UserId = string

  /** No id occurs twice: the arrays behave as sets. */
  predicate NoDup(s: seq<UserId>) {
    DistinctKeys(s, (x: UserId) => x)
  }

  /** `$addToSet`: appends `x` unless it is already there. */
  function AddToSet(s: seq<UserId>, x: UserId): (r: seq<UserId>)
    ensures forall y :: y in r <==> y in s || y == x
    ensures |s| <= |r| <= |s| + 1 && r[..|s|] == s
    ensures NoDup(s) ==> NoDup(r)
  {
    if x in s then s else s + [x]
  }

  /** `$pull`, and equally `s.filter(id => id !== x)`: removes every occurrence of `x`. */
  function Pull(s: seq<UserId>, x: UserId): (r: seq<UserId>)
    ensures forall y :: y in r <==> y in s && y != x
    ensures IsSubsequence(r, s)
    ensures x !in s ==> r == s
    ensures NoDup(s) ==> NoDup(r)
  {
    PullFacts(s, x);
    Filter(s, y => y != x)
  }

  lemma PullFacts(s: seq<UserId>, x: UserId)
    ensures IsSubsequence(Filter(s, y => y != x), s)
    ensures x !in s ==> Filter(s, y => y != x) == s
    ensures NoDup(s) ==> NoDup(Filter(s, y => y != x))
  {
    FilterIsSubsequence(s, y => y != x);
    if x !in s {
      FilterKeepsAll(s, y => y != x);
    }
    if NoDup(s) {
      FilterDistinctKeys(s, (x: UserId) => x, y => y != x);
    }
  }

  /** `s.indexOf(x)`: the first position of `x`, or -1. */
  function IndexOf(s: seq<UserId>, x: UserId): (i: int)
    ensures -1 <= i < |s|
    ensures i == -1 <==> x !in s
    ensures 0 <= i ==> s[i] == x && x !in s[..i]
  {
    var i := FirstIndex(s, y => y == x);
    assert 0 <= i ==> forall k | 0 <= k < i :: s[..i][k] == s[k];
    i
  }

  /** The star route: `splice(indexOf(x), 1)` when `x` is present, `push(x)` otherwise. */
  function Toggle(s: seq<UserId>, x: UserId): (r: seq<UserId>)
    ensures forall y :: y != x ==> (y in r <==> y in s)
    ensures x !in s ==> r == s + [x]
    ensures NoDup(s) ==> NoDup(r) && (x in r <==> x !in s)
  {
    var i := IndexOf(s, x);
    if i > -1 then
      var r := s[..i] + s[i + 1..];
      assert s == s[..i] + [x] + s[i + 1..];
      r
    else
      s + [x]
  }

  /** Starring twice gives back the same set of ids (the array order may differ). */
  lemma ToggleTwice(s: seq<UserId>, x: UserId)
    requires NoDup(s)
    ensures NoDup(Toggle(Toggle(s, x), x))
    ensures forall y :: y in Toggle(Toggle(s, x), x) <==> y in s
  {
  }

  /** Unstarring and starring again moves the id to the end of the array. */
  lemma ToggleTwiceReorders()
    ensures Toggle(Toggle(["a", "b"], "a"), "a") == ["b", "a"]
  {
    assert IndexOf(["a", "b"], "a") == 0;
    assert Toggle(["a", "b"], "a") == ["b"];
    assert IndexOf(["b"], "a") == -1;
  }
}
