# Chatrr message lifecycle, friend graph and client lists in Dafny

Chatrr is a one-to-one chat application. Its server is Express over MongoDB and its client is React. This project models three parts of it.

- **Server state.** This is the message collection and the user collection. Each HTTP route that changes them is one atomic step.
- **The chat window's `messages` list.** It is changed by optimistic sends, real-time events and optimistic actions that roll back.
- **The contacts sidebar.** Three pure transforms update it.

Modules, one file each:

- `Wrappers` (wrappers.dfy) holds `Option`.
- `Http` (http.dfy) holds the status codes the routes answer with.
- `Seqs` (seqs.dfy) holds the generic `Map` and `Filter`, and the subsequence relation that states "the rest keep their order". It also holds the first-match search shared by every lookup, and the distinct-keys predicate shared by every uniqueness invariant.
- `IdArrays` (id_arrays.dfy) models the Mongo array operators on arrays of user ids: `$addToSet`, `$pull`, and the star route's `indexOf` / `splice` / `push`.
- `MessageModel` (message_model.dfy) holds the message record and the visibility predicate. It also holds the `MessageStore` class, which is the collection, with the next ObjectId counter.
- `MessagesRoute` (messages_route.dfy) holds the `/msg` routes: create, the conversation query, mark-read, delete, hide, the two-stage clear and star.
- `UserModel` (user_model.dfy) holds the user record and the `UserTable` class. The table's invariant is that ids are unique, no array repeats an id, friendship is mutual, and every pending request appears on both sides.
- `FriendsRoute` (friends_route.dfy) holds send-request, accept, reject and unfriend. Unfriend also deletes the pair's conversation.
- `UserAuthRoute` (user_auth_route.dfy) holds `POST /delete`: the account and every message it sent or received are removed.
- `ChatBoxComponent` (chat_box.dfy) holds the `ChatBox` class. Each handler of the chat window is a method on its `messages` and `messageText` fields. The `setMessages` updaters are pure functions on the sequence.
- `Contacts` (contacts.dfy) holds the online-users object and the friends-list transforms.

Every route method requires the store invariant and re-establishes it. Its `ensures` gives the new state as a function of the old one. The properties of those functions are stated in their own contracts and in lemmas. Examples:

- what a clear purges;
- that starring twice restores the set;
- that each friend route keeps the friend graph consistent;
- that the client's clear shows what the server's next fetch returns, under the corrected conversation query.

## Model

| member | source | states |
|---|---|---|
| IdArrays.AddToSet | server/routes/messagesRoute.js:132 | `$addToSet`: the result holds exactly the old ids plus the new one. It extends the old array by at most one entry and never introduces a duplicate. |
| IdArrays.Pull | server/routes/messagesRoute.js:133 | `$pull`: the result holds exactly the old ids other than the pulled one, in their old order. It is the old array itself when the id was absent, and it never introduces a duplicate. |
| IdArrays.IndexOf | server/routes/messagesRoute.js:188 | `indexOf`: -1 exactly when the id is absent, otherwise the first position that holds it. |
| IdArrays.Toggle | server/routes/messagesRoute.js:187-196 | The star flip: other ids' membership is unchanged and an absent id is pushed at the end. On a duplicate-free array the caller's membership is inverted and the array stays duplicate-free. |
| IdArrays.ToggleTwice | server/routes/messagesRoute.js:187-196 | Toggling twice on a duplicate-free array gives back the same set of ids, still without duplicates. |
| IdArrays.ToggleTwiceReorders | server/routes/messagesRoute.js:187-196 | Toggling twice need not give back the same array: unstarring and restarring moves the id to the end. |
| Seqs.FirstIndex | server/routes/messagesRoute.js:188 | The first position whose element satisfies the predicate, or -1 exactly when no element does. |
| Seqs.FindFirst | server/routes/messagesRoute.js:182-185 | The lookup behind `findById` and `findOne` (`MessageModel.FindById`, `UserModel.FindUser`, `UserModel.FindByEmail`). None exactly when no record matches. Otherwise the result is a matching record, and no earlier record matches. |
| MessageModel.FindByIdUnique | server/routes/messagesRoute.js:182-185 | In a collection with unique ids, looking up a stored record's id returns that record. |
| MessagesRoute.Create | server/routes/messagesRoute.js:19-34 | 400 with no change exactly when the sender is missing, the receiver is missing, or both text and image are empty. Otherwise 201, exactly one record is appended, and the ObjectId counter advances by one. The record has a fresh ObjectId, text defaulting to "", the given image and time, is unread and not deleted, and has empty star and clear sets. |
| MessagesRoute.SortByTimestamp | server/routes/messagesRoute.js:60 | `.sort({timestamp: 1})`: the result is ascending by timestamp and a permutation of the input. |
| MessagesRoute.GetMessages | server/routes/messagesRoute.js:47-60 | The intended query. A record is returned exactly when it is stored, belongs to the {viewer, peer} conversation, and the viewer has not cleared it or has starred it. Each such record appears exactly as often as it is stored, and every other one not at all. The result is oldest first, and every returned record involves the viewer. |
| MessagesRoute.GetMessagesAsWritten | server/routes/messagesRoute.js:47-60 | The query as written: a record is returned exactly when it is stored and visible to the viewer, whatever conversation it is in. Each such record appears exactly as often as it is stored. The result is oldest first. |
| MessagesRoute.IntendedWithinAsWritten | server/routes/messagesRoute.js:47-59 | The intended result is a sub-multiset of the written one. |
| MessagesRoute.AsWrittenLeaksOtherConversations | server/routes/messagesRoute.js:47-59 | Concrete case: a message from alice to bob is returned to carol asking for her conversation with alice. The intended query returns nothing. |
| MessagesRoute.CreatedMessageFetched | server/routes/messagesRoute.js:26-60 | A freshly created record is in both participants' next fetch of their conversation. |
| MessagesRoute.MarkedRead | server/routes/messagesRoute.js:77-80 | Exactly the records from the contact to the reader become read. Every other record and every other field is unchanged, and no record becomes unread. |
| MessagesRoute.MarkReadIdempotent | server/routes/messagesRoute.js:77-80 | Marking read twice equals marking read once. |
| MessagesRoute.MarkRead | server/routes/messagesRoute.js:68-82 | 200, and the store becomes `MarkedRead` of the old store. |
| MessagesRoute.DeletedById | server/routes/messagesRoute.js:96-111 | Records with the id get the tombstone text, `isDeleted` set, the image removed, and only the caller pulled from `starredBy`. Every other record is unchanged. |
| MessagesRoute.DeletedKeepsStore | server/routes/messagesRoute.js:96-111 | Tombstoning keeps ids unique and every record well formed, and the id is found afterwards exactly when it was found before. |
| MessagesRoute.Delete | server/routes/messagesRoute.js:90-118 | 500 with no change for an id that is not an ObjectId. Otherwise 200, with no check of who sent the message. The store becomes `DeletedById` of the old store. The returned record is the updated one, and it is absent exactly when the id was unknown. |
| MessagesRoute.HiddenFor | server/routes/messagesRoute.js:129-135 | One record's update: only `clearedBy` and `starredBy` change. The caller is cleared, is unstarred and no longer sees the record, and every other user's memberships and view are unchanged. |
| MessagesRoute.HiddenById | server/routes/messagesRoute.js:129-135 | For the record with the id, the caller is in `clearedBy`, is not in `starredBy`, and no longer sees it. Other users' memberships and visibility are unchanged, as are all other records. |
| MessagesRoute.Hide | server/routes/messagesRoute.js:121-142 | 500 with no change for an id that is not an ObjectId. Otherwise 200, and the store becomes `HiddenById` of the old store. |
| MessagesRoute.ClearStage1 | server/routes/messagesRoute.js:150-162 | Each conversation record the caller has not starred gains the caller in `clearedBy`, and nothing else in it changes. Every other record is unchanged. |
| MessagesRoute.ClearStage2 | server/routes/messagesRoute.js:164-169 | Exactly the conversation records that both users have cleared and nobody has starred are deleted. The rest keep their order. |
| MessagesRoute.ClearPurgesExactly | server/routes/messagesRoute.js:150-169 | A record is purged by a clear exactly when it is in the conversation, has no star, and the peer had already cleared it. So a clear never deletes a starred record or one the peer still sees. |
| MessagesRoute.VisibleAfterClear | server/routes/messagesRoute.js:150-169 | After a clear, the caller sees a remaining conversation record exactly when they starred it. |
| MessagesRoute.BothClearPurgesUnstarred | server/routes/messagesRoute.js:164-169 | Once both participants have cleared, no unstarred record of their conversation remains. |
| MessagesRoute.Clear | server/routes/messagesRoute.js:145-171 | 200, and the store becomes stage 2 applied to stage 1 of the old store. |
| MessagesRoute.StarToggledById | server/routes/messagesRoute.js:187-196 | For the record with the id, the caller's membership in `starredBy` flips and nothing else changes. Every other record is unchanged. |
| MessagesRoute.StarToggledKeepsStore | server/routes/messagesRoute.js:187-196 | Toggling a star keeps ids unique and every record well formed, and the id is found afterwards exactly when it was found before. |
| MessagesRoute.StarTwiceRestores | server/routes/messagesRoute.js:187-196 | Starring the same record twice restores every record's set of starring users. |
| MessagesRoute.ToggleStar | server/routes/messagesRoute.js:177-203 | 500 with no change for an id that is not an ObjectId. 404 with no change for an unknown ObjectId. Otherwise 200, the store becomes `StarToggledById` of the old store, and the updated record is returned. |
| UserModel.UpdateUser | server/routes/friendsRoute.js:36-37 | `findByIdAndUpdate`: the update is applied to the user with the id, and every other user is unchanged. |
| FriendsRoute.RequestSent | server/routes/friendsRoute.js:35-38 | The recipient joins the sender's `friendRequestsSent` and the sender joins the recipient's `friendRequestsReceived`, with set semantics. No other field or user changes. |
| FriendsRoute.RequestSentKeepsConsistent | server/routes/friendsRoute.js:35-38 | Sending a request keeps the user table consistent. |
| FriendsRoute.SendRequest | server/routes/friendsRoute.js:13-46 | 404 exactly when no user has the email. 400 exactly when the recipient is the caller, is already a friend, or has a request pending in either direction. Both leave the table unchanged. Otherwise 200 and the table becomes `RequestSent`. |
| FriendsRoute.Accepted | server/routes/friendsRoute.js:65-74 | Each user joins the other's `friends`, and the pending entries on both sides are pulled. Nothing else changes, and whether a request was pending is not checked. |
| FriendsRoute.AcceptedKeepsConsistent | server/routes/friendsRoute.js:65-74 | Accepting keeps the user table consistent, including mutual friendship. |
| FriendsRoute.AcceptMakesFriends | server/routes/friendsRoute.js:65-74 | After an accept, each user is in the other's `friends` and neither has a request pending towards the other. |
| FriendsRoute.AcceptRequest | server/routes/friendsRoute.js:55-87 | 404 with no change for an unknown requester. Otherwise 200 and the table becomes `Accepted`. |
| FriendsRoute.Rejected | server/routes/friendsRoute.js:100-103 | Only the two pending entries are pulled, and `friends` is untouched. |
| FriendsRoute.RejectedKeepsConsistent | server/routes/friendsRoute.js:100-103 | Rejecting keeps the user table consistent. |
| FriendsRoute.RejectRequest | server/routes/friendsRoute.js:94-105 | Always 200, and the table becomes `Rejected`. |
| FriendsRoute.Unfriended | server/routes/friendsRoute.js:139-144 | Each user leaves the other's `friends`, and nothing else changes. |
| FriendsRoute.UnfriendedKeepsConsistent | server/routes/friendsRoute.js:139-144 | Unfriending keeps the user table consistent. |
| FriendsRoute.ConversationDeleted | server/routes/friendsRoute.js:147-152 | Exactly the messages between the pair are deleted. Messages with third parties stay, in order. |
| FriendsRoute.Unfriend | server/routes/friendsRoute.js:133-155 | Always 200, and both the user table and the message store are updated as above. |
| UserAuthRoute.MessagesWithout | server/routes/userAuthRoute.js:59 | Exactly the messages the user sent or received are deleted, and the rest stay in order. |
| UserAuthRoute.UsersWithout | server/routes/userAuthRoute.js:60 | Exactly the user's record is deleted, and the rest stay in order. |
| UserAuthRoute.UsersWithoutKeepsConsistent | server/routes/userAuthRoute.js:60 | Removing a user keeps the table consistent among the remaining users. |
| UserAuthRoute.DeleteAccount | server/routes/userAuthRoute.js:47-72 | 401 with no change without a session. Otherwise 200, and both cascades are applied. |
| ChatBoxComponent.TrimStartIndex | client/src/components/ChatBox.jsx:151 | Where the leading whitespace ends: every position skipped is whitespace, and the position returned is the end of the text or holds a non-whitespace character. |
| ChatBoxComponent.TrimEndIndex | client/src/components/ChatBox.jsx:151 | Where the trailing whitespace starts, scanning back no further than the given start: every position cut off is whitespace, and the character just before the position returned is not. |
| ChatBoxComponent.Trim | client/src/components/ChatBox.jsx:151 | `trim()`: a contiguous piece of the input such that everything before and after it is whitespace. It is empty exactly when every character is whitespace. Otherwise it starts and ends with a non-whitespace character. |
| ChatBoxComponent.TrimIgnoresSurroundingWhitespace | client/src/components/ChatBox.jsx:151 | Trimming whitespace, then a core that starts and ends with non-whitespace, then whitespace gives back exactly the core. |
| ChatBoxComponent.TrimKeepsInnerSpace | client/src/components/ChatBox.jsx:151 | Concrete case: `" hi there "` trims to `"hi there"`, and the inner space stays. |
| ChatBoxComponent.ReplaceById | client/src/components/ChatBox.jsx:177 | Entries with the id are replaced by the server's message in the same position, and every other entry is unchanged. |
| ChatBoxComponent.RemoveById | client/src/components/ChatBox.jsx:182 | No entry with the id remains. Every other entry keeps its count and relative order, and the list is unchanged when the id was absent. |
| ChatBoxComponent.ConfirmAfterAppend | client/src/components/ChatBox.jsx:164-177 | Appending the provisional message and then confirming it leaves the old list plus the server's message at the end. |
| ChatBoxComponent.FailAfterAppend | client/src/components/ChatBox.jsx:164-182 | Appending the provisional message and then failing gives back the old list exactly. |
| ChatBoxComponent.ConfirmedSendIds | client/src/components/ChatBox.jsx:153-177 | After a confirmed send, exactly one entry has the server id, it is the last, and none has the temporary id. |
| ChatBoxComponent.ReadReceiptApplied | client/src/components/ChatBox.jsx:78 | Exactly the current user's own messages become read. Length and all other fields are unchanged. |
| ChatBoxComponent.Retracted | client/src/components/ChatBox.jsx:82 | Entries with the id get the tombstone text and `isDeleted`, with length, order, ids and other fields unchanged. |
| ChatBoxComponent.LocalStarToggle | client/src/components/ChatBox.jsx:120-123 | The client's flip: the current user's membership is inverted and others' membership is unchanged. |
| ChatBoxComponent.LocalStarMatchesServer | client/src/components/ChatBox.jsx:120-123 | On a duplicate-free array the client's flip and the server's flip give the same set. |
| ChatBoxComponent.StarToggledLocally | client/src/components/ChatBox.jsx:118-127 | Only `starredBy` of entries with the id changes: the user's membership is inverted and others' is unchanged. |
| ChatBoxComponent.DeletedLocally | client/src/components/ChatBox.jsx:191-201 | Entries with the id get the tombstone text and `isDeleted`, and the current user is dropped from `starredBy`. The image is untouched and other entries are unchanged. |
| ChatBoxComponent.StarredOnly | client/src/components/ChatBox.jsx:106 | Exactly the messages the current user starred remain, each as often as in the list, in order. |
| ChatBoxComponent.ClientClearMatchesServer | client/src/components/ChatBox.jsx:96-106 | Take the list the corrected query (`MessagesRoute.GetMessages`) returns. What it keeps after a clear holds the same messages as that query's next fetch after the server's two-stage clear. |
| ChatBoxComponent.ClientClearDisagreesAsWritten | client/src/components/ChatBox.jsx:96-106 | Concrete case: with the query as written the agreement fails. An unstarred message from alice to carol is fetched into alice's window with bob and dropped from it by the clear. The clear leaves it untouched, so the next fetch returns it again. |
| ChatBoxComponent.ChatBox.constructor | client/src/components/ChatBox.jsx:22-23 | Both the list and the input start empty. |
| ChatBoxComponent.ChatBox.LoadConversation | client/src/components/ChatBox.jsx:42-57 | On a failed fetch the list is unchanged and no mark-read is sent. Otherwise the list becomes the fetched messages, and a mark-read follows exactly when an unread message from the peer is among them. |
| ChatBoxComponent.ChatBox.InputChange | client/src/components/ChatBox.jsx:141-142 | The input holds the new value. |
| ChatBoxComponent.ChatBox.BeginSend | client/src/components/ChatBox.jsx:149-165 | A whitespace-only draft changes nothing. Otherwise one provisional message with the temporary id is appended. It has the trimmed text, is unread and not deleted, and the input is emptied. |
| ChatBoxComponent.ChatBox.ConfirmSend | client/src/components/ChatBox.jsx:177 | The list becomes `ReplaceById` with the server's message. |
| ChatBoxComponent.ChatBox.FailSend | client/src/components/ChatBox.jsx:182 | The list becomes `RemoveById` of the temporary id. |
| ChatBoxComponent.ChatBox.SendMsg | client/src/components/ChatBox.jsx:149-183 | The whole send: nothing for a blank draft. Otherwise the provisional message is appended and then replaced on success or removed on failure. |
| ChatBoxComponent.ChatBox.ReceiveMessage | client/src/components/ChatBox.jsx:69-74 | A message is appended, and acknowledged, exactly when its sender is the selected user. Otherwise the list is unchanged. |
| ChatBoxComponent.ChatBox.MessagesRead | client/src/components/ChatBox.jsx:76-80 | A receipt from the selected user applies `ReadReceiptApplied`, and any other receipt changes nothing. |
| ChatBoxComponent.ChatBox.MessageDeleted | client/src/components/ChatBox.jsx:81-83 | The list becomes `Retracted`. |
| ChatBoxComponent.ChatBox.ClearChat | client/src/components/ChatBox.jsx:96-110 | Only after confirmation and server success does the list become `StarredOnly`. Otherwise it is unchanged. |
| ChatBoxComponent.ChatBox.ToggleStar | client/src/components/ChatBox.jsx:116-138 | On success the list is the optimistic flip. On failure it equals the snapshot taken before. |
| ChatBoxComponent.ChatBox.DeleteOwnMessage | client/src/components/ChatBox.jsx:189-216 | The retraction event goes to the peer whatever the outcome. On success the list is the optimistic tombstone, and on failure it equals the snapshot. |
| ChatBoxComponent.ChatBox.HideFriendsMessage | client/src/components/ChatBox.jsx:219-237 | On success the message is removed from the list. On failure the list equals the snapshot. |
| ChatBoxComponent.ChatBox.DeleteClick | client/src/components/ChatBox.jsx:240-248 | A declined confirmation changes nothing. Otherwise one's own message is deleted for everyone and a peer's message is hidden. |
| Contacts.MarkOnline | client/src/components/Contacts.jsx:58-61 | The reduce step: the keys are the accumulator's plus the array's, and an array id maps to true. |
| Contacts.OnlineUsers | client/src/components/Contacts.jsx:57-62 | A key is present exactly when it occurs in the array, and every value is true. |
| Contacts.OnlineIffListed | client/src/components/Contacts.jsx:57-62 | A contact reads as online exactly when the server listed its id. |
| Contacts.OnlineUsersIgnoresOrder | client/src/components/Contacts.jsx:57-62 | Two arrays with the same ids give the same object, whatever their order or repetitions. |
| Contacts.WithoutDeleted | client/src/components/Contacts.jsx:66-68 | No friend with the deleted id remains. Every other friend keeps its count and order, and the list is unchanged when the id was absent. |
| Contacts.WithoutDeletedKeepsUnique | client/src/components/Contacts.jsx:66-68 | A list with distinct ids keeps them distinct. |
| Contacts.WithFriendAdded | client/src/components/Contacts.jsx:73-81 | An already-listed id leaves the list unchanged, and an absent one is appended at the end. |
| Contacts.WithFriendAddedKeepsUnique | client/src/components/Contacts.jsx:75-80 | The list never gains a duplicate id. |
| Contacts.WithFriendAddedIdempotent | client/src/components/Contacts.jsx:75-80 | Receiving the same new friend twice equals receiving it once. |

## Left out

- Authentication: the `isAuthenticated` middleware in front of every `/msg` and `/friends` route, Passport, and sessions. The caller is a parameter, and the only 401 modelled is the inline check in `POST /delete`.
- Errors from the database (the 500 branches) and the statements that log them. The one 500 modelled is the cast failure on a message id that is not an ObjectId, in delete, hide and star (the `TempId` constructor).
- Concurrency. Each handler is one atomic step. The two `findByIdAndUpdate` calls inside a `Promise.all` are modelled as happening together. The star route's read-modify-`save` can lose an update under concurrent stars, and that is not captured.
- The chat window also shows events arriving between an optimistic update and its failure. A restored snapshot discards those events; the model restores the snapshot the handler took but does not interleave other events.
- Socket.IO transport: who receives `receiveMessage`, `messages-read`, `messageDeleted`, `friendListUpdated` and `accountDeleted`, and the typing signal and its timer. Events are method calls with the payload as argument. The emitted retraction is returned as a value.
- The clock: `Date.now()` and the default `timestamp` are a natural-number parameter `now`.
- ObjectIds are modelled by a counter in the store. The client's `temp_<time>` id is a separate constructor, so it can never equal a server id.
- On the client, a message without a `starredBy` array is modelled with an empty one. `msg.starredBy?.includes(...)` then reads as false, as in the code.
- Fields that only rendering uses are not modelled on the server's user records: name, picture and googleId. The client's copy of a message carries its image, but no modelled handler reads it.
- The read routes `GET /friends/requests` and `GET /friends/list`, because they only return stored data. The unfriend response body (`User.friends`, which is undefined) is not modelled either.
- The chat window's reset to an empty list when no user is selected (client/src/components/ChatBox.jsx:38-41). In the model the two users are fixed when the component is built.
- MessagesRoute.Delete: there is no check that the caller sent the message, and the model follows the code. Any authenticated user can tombstone any message by id. The chat window only offers deletion to the sender.
- UserAuthRoute.UsersWithout: ids of the deleted user left in other users' `friends` and request arrays are not cleaned up, as in the code. The table invariant is therefore stated over the users that remain.
- server/models/messages-model.js and server/models/users-model.js declare fewer fields than the routes use. The model has every field the routes read or write.

## Findings

| source | as written | input that shows it | evidently intended | confidence | as-written member | corrected member |
|---|---|---|---|---|---|---|
| server/routes/messagesRoute.js:47-59 | The filter object literal has two `$or` keys. JavaScript keeps only the second, so the conversation clause is dropped and the query returns every message visible to the caller. | The store holds one message from alice to bob. carol asks for her conversation with alice and is given that message. | Restrict to the {caller, peer} conversation and to messages the caller has not cleared or has starred, as the comments say. | not executed; follows from object-literal semantics | MessagesRoute.AsWrittenLeaksOtherConversations | MessagesRoute.GetMessages |
| server/routes/messagesRoute.js:47-59 | With the same dropped clause, the chat window's clear (client/src/components/ChatBox.jsx:106) no longer matches the server. A clear drops every unstarred message from the list, but the server clear touches only the conversation's records. | alice's window with bob holds an unstarred message from alice to carol. After the clear it is gone from the list, and the next fetch returns it again. | The list after a clear equals the next fetch, which holds under the corrected query. | not executed; follows from object-literal semantics | ChatBoxComponent.ClientClearDisagreesAsWritten | ChatBoxComponent.ClientClearMatchesServer |
