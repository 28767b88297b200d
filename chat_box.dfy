/** The chat window's `messages` list for one open conversation: optimistic sends
    under a temporary id, real-time events from the peer, and the optimistic star,
    delete and hide actions that roll back to a snapshot when the server refuses. */
module ChatBoxComponent {
  import opened Wrappers
  import opened Seqs
  import opened IdArrays
  import opened MessageModel
  import MessagesRoute

  // ---------------------------------------------------------------- trimming

  /** The characters `String.prototype.trim` removes: ECMAScript WhiteSpace
      (including every Unicode space separator) and LineTerminator. */
  const Whitespace: set<char> := {
    ' ', '\t', '\n', '\r', '\U{000B}', '\U{000C}', '\U{00A0}', '\U{FEFF}', '\U{1680}',
    '\U{2000}', '\U{2001}', '\U{2002}', '\U{2003}', '\U{2004}', '\U{2005}',
    '\U{2006}', '\U{2007}', '\U{2008}', '\U{2009}', '\U{200A}',
    '\U{2028}', '\U{2029}', '\U{202F}', '\U{205F}', '\U{3000}'
  }

  predicate IsWhitespace(c: char) {
    c in Whitespace
  }

  /** Every position of `s` from `lo` up to `hi` holds whitespace. */
  predicate WhitespaceBetween(s: string, lo: nat, hi: nat)
    requires hi <= |s|
  {
    forall i | lo <= i < hi :: IsWhitespace(s[i])
  }

  predicate AllWhitespace(s: string) {
    WhitespaceBetween(s, 0, |s|)
  }

  /** Where the leading whitespace of `s[i..]` ends: the first position at or after
      `i` that is not whitespace, or `|s|` when there is none. */
  function TrimStartIndex(s: string, i: nat): (n: nat)
    requires i <= |s|
    ensures i <= n <= |s|
    ensures WhitespaceBetween(s, i, n)
    ensures n < |s| ==> !IsWhitespace(s[n])
    decreases |s| - i
  {
    if i < |s| && IsWhitespace(s[i]) then TrimStartIndex(s, i + 1) else i
  }

  /** Where the trailing whitespace of `s[lo..j]` starts: one past the last position
      in that range that is not whitespace, or `lo` when there is none. */
  function TrimEndIndex(s: string, lo: nat, j: nat): (n: nat)
    requires lo <= j <= |s|
    ensures lo <= n <= j
    ensures WhitespaceBetween(s, n, j)
    ensures n > lo ==> !IsWhitespace(s[n - 1])
  {
    if lo < j && IsWhitespace(s[j - 1]) then TrimEndIndex(s, lo, j - 1) else j
  }

  /** `r` sits in `s` at position `k` with only whitespace before and after it. */
  predicate TrimmedAt(r: string, s: string, k: int) {
    && 0 <= k <= |s| - |r| && r == s[k..k + |r|]
    && WhitespaceBetween(s, 0, k) && WhitespaceBetween(s, k + |r|, |s|)
  }

  /** `s.trim()`: `s` with its leading and trailing whitespace cut off. It is empty
      exactly when `s` is all whitespace, and otherwise neither starts nor ends with
      whitespace. */
  function Trim(s: string): (r: string)
    ensures exists k :: TrimmedAt(r, s, k)
    ensures r == [] <==> AllWhitespace(s)
    ensures r != [] ==> !IsWhitespace(r[0]) && !IsWhitespace(r[|r| - 1])
  {
    var lo := TrimStartIndex(s, 0);
    var hi := TrimEndIndex(s, lo, |s|);
    assert TrimmedAt(s[lo..hi], s, lo);
    s[lo..hi]
  }

  /** Whitespace around a trimmed text does not matter: the result is fixed by the
      text between the first and the last non-whitespace character. */
  lemma TrimIgnoresSurroundingWhitespace(pre: string, core: string, post: string)
    requires AllWhitespace(pre) && AllWhitespace(post)
    requires core != [] ==> !IsWhitespace(core[0]) && !IsWhitespace(core[|core| - 1])
    ensures Trim(pre + core + post) == core
  {
    var x := pre + core + post;
    var e := |pre| + |core|;
    assert forall i | 0 <= i < |pre| :: x[i] == pre[i];
    assert forall i | 0 <= i < |post| :: x[e + i] == post[i];
    if core == [] {
      assert AllWhitespace(x);
    } else {
      var lo := TrimStartIndex(x, 0);
      assert x[|pre|] == core[0];
      assert lo == |pre|;
      var hi := TrimEndIndex(x, lo, |x|);
      assert x[e - 1] == core[|core| - 1];
      assert hi == e;
      assert x[lo..hi] == core;
    }
  }

  /** Only the outer spaces go; the one inside stays. */
  lemma TrimKeepsInnerSpace()
    ensures Trim(" hi there ") == "hi there"
  {
    assert " hi there " == " " + "hi there" + " ";
    TrimIgnoresSurroundingWhitespace(" ", "hi there", " ");
  }

  // ---------------------------------------------------------------- list transitions

  /** The provisional message `handleSendMsg` shows before the server answers. */
  function Provisional(now: nat, sender: UserId, receiver: UserId, text: string): Message {
    Message(TempId(now), sender, receiver, text, None, now, false, false, [], [])
  }

  predicate NoneWithId(ms: seq<Message>, id: MessageId) {
    forall m | m in ms :: m.id != id
  }

  /** `prev.map(msg => msg._id === id ? saved : msg)`: entries with that id are
      replaced in place, every other entry is kept where it was. */
  function ReplaceById(ms: seq<Message>, id: MessageId, saved: Message): (r: seq<Message>)
    ensures |r| == |ms|
    ensures forall i | 0 <= i < |ms| :: r[i] == if ms[i].id == id then saved else ms[i]
  {
    Map(ms, (m: Message) => if m.id == id then saved else m)
  }

  /** `prev.filter(msg => msg._id !== id)`: no entry with that id is left, every other
      entry stays as often as it was, in the same relative order. */
  function RemoveById(ms: seq<Message>, id: MessageId): (r: seq<Message>)
    ensures NoneWithId(r, id)
    ensures forall m: Message | m.id != id :: multiset(r)[m] == multiset(ms)[m]
    ensures IsSubsequence(r, ms)
    ensures NoneWithId(ms, id) ==> r == ms
  {
    RemoveByIdFacts(ms, id);
    Filter(ms, (m: Message) => m.id != id)
  }

  lemma RemoveByIdFacts(ms: seq<Message>, id: MessageId)
    ensures var r := Filter(ms, (m: Message) => m.id != id);
      && (forall m: Message | m.id != id :: multiset(r)[m] == multiset(ms)[m])
      && IsSubsequence(r, ms)
      && (NoneWithId(ms, id) ==> r == ms)
  {
    var p := (m: Message) => m.id != id;
    FilterIsSubsequence(ms, p);
    forall m: Message | m.id != id ensures multiset(Filter(ms, p))[m] == multiset(ms)[m] {
      FilterCount(ms, p, m);
    }
    if NoneWithId(ms, id) {
      FilterKeepsAll(ms, p);
    }
  }

  /** A confirmed send, when the temporary id was not already in the list, leaves
      the list as it was plus the server's message at the end. */
  lemma {:induction false} ConfirmAfterAppend(ms: seq<Message>, p: Message, saved: Message)
    requires NoneWithId(ms, p.id)
    ensures ReplaceById(ms + [p], p.id, saved) == ms + [saved]
  {
    var r := ReplaceById(ms + [p], p.id, saved);
    forall i | 0 <= i < |ms| ensures r[i] == ms[i] {
      assert (ms + [p])[i] == ms[i];
      assert ms[i] in ms;
    }
  }

  /** A failed send, when the temporary id was not already in the list, gives the
      list back exactly as it was. */
  lemma {:induction false} FailAfterAppend(ms: seq<Message>, p: Message)
    requires NoneWithId(ms, p.id)
    ensures RemoveById(ms + [p], p.id) == ms
  {
    FilterAppend(ms, [p], (m: Message) => m.id != p.id);
    FilterKeepsAll(ms, (m: Message) => m.id != p.id);
    assert Filter([p], (m: Message) => m.id != p.id) == [];
  }

  /** After a confirmed send the list holds exactly one entry with the server's id
      and none with the temporary id. */
  lemma ConfirmedSendIds(ms: seq<Message>, p: Message, saved: Message)
    requires NoneWithId(ms, p.id) && NoneWithId(ms, saved.id) && saved.id != p.id
    ensures
      var r := ReplaceById(ms + [p], p.id, saved);
      && NoneWithId(r, p.id)
      && (forall i | 0 <= i < |r| :: r[i].id == saved.id <==> i == |r| - 1)
  {
    ConfirmAfterAppend(ms, p, saved);
    var r := ms + [saved];
    forall i | 0 <= i < |ms| ensures r[i].id != saved.id {
      assert r[i] == ms[i] && ms[i] in ms;
    }
  }

  /** `prev.map(msg => msg.senderId === currentUser ? {...msg, isRead: true} : msg)`:
      the current user's own messages become read, nothing else changes. */
  function ReadReceiptApplied(ms: seq<Message>, currentUser: UserId): (r: seq<Message>)
    ensures |r| == |ms|
    ensures forall i | 0 <= i < |ms| ::
      r[i] == ms[i].(isRead := ms[i].isRead || ms[i].senderId == currentUser)
  {
    Map(ms, (m: Message) => if m.senderId == currentUser then m.(isRead := true) else m)
  }

  /** The handler of `messageDeleted`: entries with that id become tombstones in
      place; the list keeps its length and order, and the image is not touched. */
  function Retracted(ms: seq<Message>, id: MessageId): (r: seq<Message>)
    ensures |r| == |ms|
    ensures forall i | 0 <= i < |ms| :: r[i].id == ms[i].id
    ensures forall i | 0 <= i < |ms| && ms[i].id != id :: r[i] == ms[i]
    ensures forall i | 0 <= i < |ms| && ms[i].id == id ::
      r[i] == ms[i].(text := Tombstone, isDeleted := true)
  {
    Map(ms, (m: Message) => if m.id == id then m.(text := Tombstone, isDeleted := true) else m)
  }

  /** The star flip of `handleToggleStar`: drop the user if present, append otherwise. */
  function LocalStarToggle(starredBy: seq<UserId>, user: UserId): (r: seq<UserId>)
    ensures forall u | u != user :: u in r <==> u in starredBy
    ensures user in r <==> user !in starredBy
  {
    if user in starredBy then Pull(starredBy, user) else starredBy + [user]
  }

  /** For a duplicate-free array, the client's flip and the server's `indexOf` /
      `splice` / `push` flip agree on who has starred the message. */
  lemma LocalStarMatchesServer(starredBy: seq<UserId>, user: UserId)
    requires NoDup(starredBy)
    ensures forall u :: u in LocalStarToggle(starredBy, user) <==> u in Toggle(starredBy, user)
  {
  }

  function StarToggledLocally(ms: seq<Message>, id: MessageId, user: UserId): (r: seq<Message>)
    ensures |r| == |ms|
    ensures forall i | 0 <= i < |ms| && ms[i].id != id :: r[i] == ms[i]
    ensures forall i | 0 <= i < |ms| && ms[i].id == id ::
      && r[i] == ms[i].(starredBy := r[i].starredBy)
      && (forall u | u != user :: u in r[i].starredBy <==> u in ms[i].starredBy)
      && (user in r[i].starredBy <==> user !in ms[i].starredBy)
  {
    Map(ms, (m: Message) => if m.id == id then m.(starredBy := LocalStarToggle(m.starredBy, user)) else m)
  }

  /** The optimistic rewrite of `handleDeleteOwnMessage`: tombstone text, `isDeleted`,
      and the current user's star dropped; the image stays in the local copy. */
  function DeletedLocally(ms: seq<Message>, id: MessageId, user: UserId): (r: seq<Message>)
    ensures |r| == |ms|
    ensures forall i | 0 <= i < |ms| && ms[i].id != id :: r[i] == ms[i]
    ensures forall i | 0 <= i < |ms| && ms[i].id == id ::
      && r[i] == ms[i].(text := Tombstone, isDeleted := true, starredBy := r[i].starredBy)
      && forall u :: u in r[i].starredBy <==> u in ms[i].starredBy && u != user
  {
    Map(ms, (m: Message) => if m.id == id then m.(text := Tombstone, isDeleted := true,
                                                   starredBy := Pull(m.starredBy, user)) else m)
  }

  /** `prev.filter(msg => msg.starredBy?.includes(user))`: what a clear leaves on screen. */
  function StarredOnly(ms: seq<Message>, user: UserId): (r: seq<Message>)
    ensures forall m :: m in r <==> m in ms && user in m.starredBy
    ensures forall m :: multiset(r)[m] == if user in m.starredBy then multiset(ms)[m] else 0
    ensures IsSubsequence(r, ms)
  {
    FilterIsSubsequence(ms, (m: Message) => user in m.starredBy);
    forall m ensures multiset(Filter(ms, (m: Message) => user in m.starredBy))[m] ==
                     if user in m.starredBy then multiset(ms)[m] else 0 {
      FilterCount(ms, (m: Message) => user in m.starredBy, m);
    }
    Filter(ms, (m: Message) => user in m.starredBy)
  }

  /** The list a clear leaves on screen holds the same messages the server returns
      for the conversation after its two-stage clear. */
  lemma ClientClearMatchesServer(ms: seq<Message>, me: UserId, peer: UserId)
    ensures forall m ::
      m in StarredOnly(MessagesRoute.GetMessages(ms, me, peer), me) <==>
      m in MessagesRoute.GetMessages(MessagesRoute.Cleared(ms, me, peer), me, peer)
  {
    forall m ensures
      m in StarredOnly(MessagesRoute.GetMessages(ms, me, peer), me) <==>
      m in MessagesRoute.GetMessages(MessagesRoute.Cleared(ms, me, peer), me, peer)
    {
      if m in ms && InConversation(m, me, peer) && me in m.starredBy {
        StarredSurvivesClear(ms, me, peer, m);
      }
      if m in MessagesRoute.Cleared(ms, me, peer) && InConversation(m, me, peer) && VisibleTo(m, me) {
        ClearedVisibleWasStarred(ms, me, peer, m);
      }
    }
  }

  /** With the query as written the agreement fails: an unstarred message from the
      user to a third party is dropped from the list by a clear with the peer, but it
      is untouched by that clear and the next fetch still returns it. */
  lemma ClientClearDisagreesAsWritten()
    ensures
      var m := Message(ObjectId(0), "alice", "carol", "hi", None, 1, false, false, [], []);
      && m in MessagesRoute.GetMessagesAsWritten([m], "alice", "bob")
      && m !in StarredOnly(MessagesRoute.GetMessagesAsWritten([m], "alice", "bob"), "alice")
      && m in MessagesRoute.GetMessagesAsWritten(MessagesRoute.Cleared([m], "alice", "bob"), "alice", "bob")
  {
    var m := Message(ObjectId(0), "alice", "carol", "hi", None, 1, false, false, [], []);
    assert m in [m];
    MessagesRoute.ClearPurgesExactly([m], "alice", "bob", 0);
  }

  lemma StarredSurvivesClear(ms: seq<Message>, me: UserId, peer: UserId, m: Message)
    requires m in ms && InConversation(m, me, peer) && me in m.starredBy
    ensures m in MessagesRoute.Cleared(ms, me, peer)
  {
    var s1 := MessagesRoute.ClearStage1(ms, me, peer);
    var i :| 0 <= i < |ms| && ms[i] == m;
    assert s1[i] == m;
    assert m in s1;
  }

  lemma ClearedVisibleWasStarred(ms: seq<Message>, me: UserId, peer: UserId, m: Message)
    requires m in MessagesRoute.Cleared(ms, me, peer) && InConversation(m, me, peer) && VisibleTo(m, me)
    ensures m in ms && me in m.starredBy
  {
    var s1 := MessagesRoute.ClearStage1(ms, me, peer);
    var i :| 0 <= i < |s1| && s1[i] == m;
    assert ms[i] in ms;
  }

  // ---------------------------------------------------------------- the component

  /** The event `handleDeleteOwnMessage` emits to the peer. */
  datatype Retraction = Retraction(messageId: MessageId, receiverId: UserId)

  class ChatBox {
    const currentUser: UserId
    const selectedUser: UserId
    var messages: seq<Message>
    var messageText: string

    constructor (currentUser: UserId, selectedUser: UserId)
      ensures this.currentUser == currentUser && this.selectedUser == selectedUser
      ensures messages == [] && messageText == ""
    {
      this.currentUser := currentUser;
      this.selectedUser := selectedUser;
      messages := [];
      messageText := "";
    }

    /** The initial fetch. When the server answers `ok`, the list becomes its answer,
        and a mark-read round trip follows exactly when an unread message from the peer
        is among it. A failed fetch only raises a toast: the list stays and nothing is
        marked read. */
    method LoadConversation(ok: bool, fetched: seq<Message>) returns (markRead: bool)
      modifies this`messages
      ensures !ok ==> messages == old(messages) && !markRead
      ensures ok ==> messages == fetched
      ensures ok ==> (markRead <==> exists m | m in fetched :: m.senderId == selectedUser && !m.isRead)
    {
      if !ok {
        return false;
      }
      messages := fetched;
      markRead := exists m | m in fetched :: m.senderId == selectedUser && !m.isRead;
    }

    /** `handleInputChange`, without the typing signal. */
    method InputChange(value: string)
      modifies this`messageText
      ensures messageText == value
    {
      messageText := value;
    }

    /** The first half of `handleSendMsg`: nothing for a whitespace-only draft,
        otherwise one provisional message at the end and an empty input. */
    method BeginSend(now: nat) returns (tempId: Option<MessageId>)
      modifies this
      ensures Trim(old(messageText)) == [] ==>
        tempId == None && messages == old(messages) && messageText == old(messageText)
      ensures Trim(old(messageText)) != [] ==>
        && tempId == Some(TempId(now))
        && messages == old(messages) + [Provisional(now, currentUser, selectedUser, Trim(old(messageText)))]
        && messageText == ""
    {
      var text := Trim(messageText);
      if text == [] {
        return None;
      }
      messages := messages + [Provisional(now, currentUser, selectedUser, text)];
      messageText := "";
      tempId := Some(TempId(now));
    }

    /** The server saved the message: it takes the provisional entry's place. */
    method ConfirmSend(tempId: MessageId, saved: Message)
      modifies this`messages
      ensures messages == ReplaceById(old(messages), tempId, saved)
    {
      messages := ReplaceById(messages, tempId, saved);
    }

    /** The request failed: the provisional entry is dropped. */
    method FailSend(tempId: MessageId)
      modifies this`messages
      ensures messages == RemoveById(old(messages), tempId)
    {
      messages := RemoveById(messages, tempId);
    }

    /** `handleSendMsg` as one step; `response` is the server's saved message, or
        None when the request failed. */
    method SendMsg(now: nat, response: Option<Message>)
      modifies this
      ensures Trim(old(messageText)) == [] ==>
        messages == old(messages) && messageText == old(messageText)
      ensures Trim(old(messageText)) != [] ==>
        var withTemp := old(messages) + [Provisional(now, currentUser, selectedUser, Trim(old(messageText)))];
        && messageText == ""
        && messages == if response.Some? then ReplaceById(withTemp, TempId(now), response.value)
                       else RemoveById(withTemp, TempId(now))
    {
      var tempId := BeginSend(now);
      if tempId.Some? {
        if response.Some? {
          ConfirmSend(tempId.value, response.value);
        } else {
          FailSend(tempId.value);
        }
      }
    }

    /** `handleReceiveMessage`: only a message from the open conversation's peer is
        appended (and then acknowledged with a mark-read). */
    method ReceiveMessage(m: Message) returns (markRead: bool)
      modifies this`messages
      ensures markRead <==> m.senderId == selectedUser
      ensures messages == if m.senderId == selectedUser then old(messages) + [m] else old(messages)
    {
      markRead := m.senderId == selectedUser;
      if markRead {
        messages := messages + [m];
      }
    }

    /** `handleMessagesRead`. */
    method MessagesRead(readerId: UserId)
      modifies this`messages
      ensures messages == if readerId == selectedUser then ReadReceiptApplied(old(messages), currentUser)
                          else old(messages)
    {
      if readerId == selectedUser {
        messages := ReadReceiptApplied(messages, currentUser);
      }
    }

    /** `handleMessageDeleted`. */
    method MessageDeleted(messageId: MessageId)
      modifies this`messages
      ensures messages == Retracted(old(messages), messageId)
    {
      messages := Retracted(messages, messageId);
    }

    /** `handleClearChat`: after the user confirms and the server succeeds, only the
        messages the current user starred remain. */
    method ClearChat(confirmed: bool, serverOk: bool)
      modifies this`messages
      ensures messages == if confirmed && serverOk then StarredOnly(old(messages), currentUser)
                          else old(messages)
    {
      if !confirmed {
        return;
      }
      if serverOk {
        messages := StarredOnly(messages, currentUser);
      }
    }

    /** `handleToggleStar`: the flip is applied at once and undone from the snapshot
        if the server refuses. */
    method ToggleStar(messageId: MessageId, serverOk: bool)
      modifies this`messages
      ensures messages == if serverOk then StarToggledLocally(old(messages), messageId, currentUser)
                          else old(messages)
    {
      var originalMessages := messages;
      messages := StarToggledLocally(messages, messageId, currentUser);
      if !serverOk {
        messages := originalMessages;
      }
    }

    /** `handleDeleteOwnMessage`: the tombstone is applied at once, the peer is told
        before the server answers, and the snapshot comes back on failure. */
    method DeleteOwnMessage(messageId: MessageId, serverOk: bool) returns (event: Retraction)
      modifies this`messages
      ensures event == Retraction(messageId, selectedUser)
      ensures messages == if serverOk then DeletedLocally(old(messages), messageId, currentUser)
                          else old(messages)
    {
      var originalMessages := messages;
      messages := DeletedLocally(messages, messageId, currentUser);
      event := Retraction(messageId, selectedUser);
      if !serverOk {
        messages := originalMessages;
      }
    }

    /** `handleHideFriendsMessage`: the message leaves the list at once and comes back
        with the snapshot on failure. */
    method HideFriendsMessage(messageId: MessageId, serverOk: bool)
      modifies this`messages
      ensures messages == if serverOk then RemoveById(old(messages), messageId) else old(messages)
    {
      var originalMessages := messages;
      messages := RemoveById(messages, messageId);
      if !serverOk {
        messages := originalMessages;
      }
    }

    /** `handleDeleteClick`: one's own message is deleted for everyone, a peer's
        message is hidden for oneself; a declined confirmation does nothing. */
    method DeleteClick(message: Message, confirmed: bool, serverOk: bool) returns (event: Option<Retraction>)
      modifies this`messages
      ensures !confirmed ==> event == None && messages == old(messages)
      ensures confirmed && message.senderId == currentUser ==>
        && event == Some(Retraction(message.id, selectedUser))
        && messages == if serverOk then DeletedLocally(old(messages), message.id, currentUser) else old(messages)
      ensures confirmed && message.senderId != currentUser ==>
        && event == None
        && messages == if serverOk then RemoveById(old(messages), message.id) else old(messages)
    {
      if !confirmed {
        return None;
      }
      if message.senderId == currentUser {
        var e := DeleteOwnMessage(message.id, serverOk);
        event := Some(e);
      } else {
        HideFriendsMessage(message.id, serverOk);
        event := None;
      }
    }
  }
}
