# Study platform: connection registry, push frames and services in Dafny

This project models the core of a Java study-group platform. The platform
has chat rooms and a post board, and it talks over a line-oriented socket
protocol. The model has five parts:

- **The server's connection registry** (`ConnectionManager`). It maps user
  ids to connections and rooms to member sets. Every operation is a pure
  transition that returns the new registry and an outbox. The outbox is a
  sequence of `Send(recipients, frame)` deliveries, and `Received(out, v)` is
  the sequence of frames that user `v` gets.
- **The per-connection handler** (`ClientHandler`). It covers the
  `AUTH:<id>:<nick>` handshake, the `CHAT:` and `POST_READ:` lines, and the
  teardown through the registry. It is a small state machine with the phases
  anonymous, reading and closed.
- **The free-text codec**: `encode` on the server and `decode` on the
  client. Both are written as chains of Java `String.replace`.
- **The client's parsing.** This covers the `|`-separated responses that
  `ClientRoomFrame` loads into its post list, comment pane and read-status
  pane. It also covers the push routing and roster parsing in `RoomFrame`.
  Java `split` is modelled exactly:
  - the no-limit form drops trailing empty strings;
  - `split(":", 3)` keeps them;
  - `Long.parseLong` and `Long.toString` are modelled digit by digit.
- **The six services** (rooms, posts, comments, read status, users,
  assignments). Each is written over a `Table`. A table is a map from id to
  row, plus the next value of the identity column. An exception is an `Err`
  that leaves every table as it was, which models the transaction rollback.

Cross-file lemmas connect the server's frames to the client's routing
(module `Interop`). For example, `Interop.RosterRoundTrip` states that the
roster frame the server builds routes, in the member's room window, to
the members' non-empty nicknames in roster order, provided no nickname
holds a comma.

Some behaviours of the code that the model reproduces:

- The codec round trip holds only for text without `&` (see
  `Codec.EntityInTextDoesNotRoundTrip`).
- The handshake reads the first two `:` fields after `AUTH:` and ignores
  the rest. The nickname is not checked: `AUTH:5::x` registers user 5
  under the empty nickname (`Handler.HandshakeEmptyNickname`).
- The room roster frame joins `id:nickname` items with `,`. A member with
  an empty nickname is skipped by the client, and a nickname holding a
  comma is cut at the comma (`Interop.EmptyNicknameNotShown`,
  `Interop.CommaNicknameCut`).
- A handshake without a nickname does not leave the connection
  unregistered in effect. The id is assigned before the nickname is read,
  so the teardown in `finally` removes that id from the registry. If
  another connection holds that id, it is evicted. A non-numeric id leaves
  the id unset, and nothing happens.
- `disconnect` has no guard, so a second call broadcasts the user list
  again (`Handler.DisconnectTwice`).

## Model

| member | source | states |
|---|---|---|
| Registry.AddClient | src/main/java/org/study/platform/socket/ConnectionManager.java:18-21 | afterwards the user is online under the new nickname (last writer wins); no other user's entry changes; the online count rises by one exactly when the user was not online before; rooms are untouched |
| Registry.RemoveClient | src/main/java/org/study/platform/socket/ConnectionManager.java:23-32 | the user is offline and in no room's member set; every other user's entry and room membership is as before; the room keys stay |
| Registry.RemoveClientIdempotent | src/main/java/org/study/platform/socket/ConnectionManager.java:23-32 | removing the same user twice gives the same registry as removing once |
| Registry.OnlineCountIsDistinctIds | src/main/java/org/study/platform/socket/ConnectionManager.java:156-162 | the online count is the number of distinct online ids, so the count and `isUserOnline` agree |
| Registry.JoinRoom | src/main/java/org/study/platform/socket/ConnectionManager.java:35-42 | the user is added to the room, and the member set is created if absent; other rooms are unchanged; if the user is registered, every registered member gets `ROOM_JOIN:r:u:nick`, the joiner included; if not, no frame is sent |
| Registry.LeaveRoom | src/main/java/org/study/platform/socket/ConnectionManager.java:45-54 | an unknown room is a no-op; otherwise the user is removed first, so `ROOM_LEAVE` reaches the registered remaining members and never the leaver |
| Registry.Broadcast | src/main/java/org/study/platform/socket/ConnectionManager.java:57-61 | each registered user receives the frame exactly once, and nobody else receives anything |
| Registry.BroadcastToRoom | src/main/java/org/study/platform/socket/ConnectionManager.java:64-74 | the frame goes exactly once to each registered member of the room; an unknown room sends nothing |
| Registry.SendToUser | src/main/java/org/study/platform/socket/ConnectionManager.java:77-82 | at most the named user, and only if registered, receives the frame |
| Registry.TrimTrailingComma | src/main/java/org/study/platform/socket/ConnectionManager.java:85-97 | cutting the trailing comma off the comma-terminated item list gives the comma-joined list; the list ends in a comma exactly when there are items |
| Registry.CommaTerminatedIsJoin | src/main/java/org/study/platform/socket/ConnectionManager.java:86-92 | appending `item,` for each client equals the comma-join of the items followed by one comma |
| Registry.UserListFrame | src/main/java/org/study/platform/socket/ConnectionManager.java:85-97 | the global roster is `USERLIST:` followed by the comma-joined `id:nick` items with no trailing comma, and exactly `USERLIST:` with no clients |
| Registry.RoomUserListFrame | src/main/java/org/study/platform/socket/ConnectionManager.java:100-115 | the room roster is `ROOM_USERLIST:r:` followed by the comma-joined `id:nick` items of the registered members only |
| Registry.RosterOf | src/main/java/org/study/platform/socket/ConnectionManager.java:103-109 | the roster holds exactly the members that are registered, each under its registered nickname |
| Registry.NotifyNewRoom | src/main/java/org/study/platform/socket/ConnectionManager.java:120-122 | every registered user receives the `NEW_ROOM` frame exactly once |
| Registry.NotifyRoomDeleted | src/main/java/org/study/platform/socket/ConnectionManager.java:125-127 | every registered user receives `ROOM_DELETED:r` exactly once |
| Registry.NotifyNewPost | src/main/java/org/study/platform/socket/ConnectionManager.java:130-134 | registered room members receive `NEW_POST` and then `POST_UPDATE:r`; every other registered user receives only `POST_UPDATE:r` |
| Registry.NotifyPostDeleted | src/main/java/org/study/platform/socket/ConnectionManager.java:137-139 | exactly the registered room members receive `POST_DELETED:r:p` |
| Registry.NotifyNewComment | src/main/java/org/study/platform/socket/ConnectionManager.java:142-144 | exactly the registered room members receive the `NEW_COMMENT` frame |
| Registry.NotifyPostRead | src/main/java/org/study/platform/socket/ConnectionManager.java:147-149 | exactly the registered room members receive `POST_READ:p:u:nick` |
| Registry.NotifyAssignmentSubmitted | src/main/java/org/study/platform/socket/ConnectionManager.java:152-154 | only the post author receives `ASSIGNMENT_SUBMITTED:a:s:name`, and only when registered |
| Registry.Teardown | src/main/java/org/study/platform/socket/ClientHandler.java:79-84 | the user is removed, and every other user online before receives the new user list once |
| Registry.DisconnectAll | src/main/java/org/study/platform/socket/ConnectionManager.java:164-177 | both maps end empty; each user registered at the start gets `SERVER_SHUTDOWN` exactly once, as its last frame; users not registered get nothing |
| Registry.ShutdownEachDelivers | src/main/java/org/study/platform/socket/ConnectionManager.java:166-173 | walking the clients, sending `SERVER_SHUTDOWN` and disconnecting each one delivers the shutdown frame exactly once and last to every client |
| Registry.ShutdownStep | src/main/java/org/study/platform/socket/ConnectionManager.java:166-173 | one step of the shutdown walk: the first client gets the shutdown frame, then the others online get the user list, and then the rest of the walk runs |
| Registry.UserListIsNotShutdown | src/main/java/org/study/platform/socket/ConnectionManager.java:85-97 | a user-list frame is never the shutdown frame |
| Registry.ReceivedAppend | src/main/java/org/study/platform/socket/ConnectionManager.java:57-74 | what a user receives from two outboxes in sequence is what it receives from each, in order |
| Registry.PutKeepsKeyed | src/main/java/org/study/platform/socket/ConnectionManager.java:18-21 | registering keeps one entry per user id, as a map key does |
| Registry.DeleteKeepsKeyed | src/main/java/org/study/platform/socket/ConnectionManager.java:23-27 | removal keeps one entry per user id |
| Registry.Put | src/main/java/org/study/platform/socket/ConnectionManager.java:19 | `put` binds the id to the new nickname and leaves the other keys alone; the size grows only for a new key |
| Registry.Delete | src/main/java/org/study/platform/socket/ConnectionManager.java:24 | `remove` unbinds the id and leaves the other keys alone; removing an absent key changes nothing |
| Codec.EncodeFree | src/main/java/org/study/platform/socket/ConnectionManager.java:179-184 | the encoded text contains no `\|`, no `:` and no newline |
| Codec.EncodeNonEmpty | src/main/java/org/study/platform/socket/ConnectionManager.java:179-184 | encoding yields the empty string exactly for the empty string |
| Codec.NullableRoundTrip | src/main/java/org/study/platform/socket/ConnectionManager.java:179-184 | the client's `decode` of the server's `encode` gives back `null` as the empty string and any other text without `&` unchanged; the encoded text never holds `\|`, `:` or a newline |
| Codec.EncodeIsEscaped | src/main/java/org/study/platform/socket/ConnectionManager.java:181-183 | the three chained replacements equal escaping each reserved character by its entity |
| Codec.DecodeEncode | src/main/java/org/study/platform/client/ClientRoomFrame.java:419-424 | for text without `&`, decoding the encoding gives back the text |
| Codec.EntityInTextDoesNotRoundTrip | src/main/java/org/study/platform/client/ClientRoomFrame.java:419-424 | the text `&#58;` is left unchanged by encoding, but decodes to `:`, so the round trip fails once `&` is allowed |
| Handler.Open | src/main/java/org/study/platform/socket/ClientHandler.java:29-43 | a first line without `AUTH:` does nothing; a handler that reads on has a user id exactly when it has a nickname, and then the registry holds that nickname; the set of rooms stays the same |
| Handler.HandshakeRegisters | src/main/java/org/study/platform/socket/ClientHandler.java:29-43 | `AUTH:<n>:<nick>` with any further fields registers `(n, nick)`; the new user receives `CONNECTED:success` and then the user list, which includes it; every other registered user receives the list once |
| Handler.OpenAuth | src/main/java/org/study/platform/socket/ClientHandler.java:30-42 | the handshake's effect is registration, then the `CONNECTED` reply to the new user, then the user-list broadcast |
| Handler.AuthFields | src/main/java/org/study/platform/socket/ClientHandler.java:31-33 | the handshake reads the id and the nickname from the first two `:` fields after `AUTH:` and ignores the rest |
| Handler.HandshakeBadId | src/main/java/org/study/platform/socket/ClientHandler.java:31-32 | a non-numeric or missing id closes the handler with no id set, no registry change and no frame |
| Handler.HandshakeMissingNickname | src/main/java/org/study/platform/socket/ClientHandler.java:31-33 | a handshake whose text after `AUTH:` splits to the id alone (`AUTH:5`, `AUTH:5:`, `AUTH:5:::`) closes the handler with the id already set, so the teardown removes that id and every other registered user receives the new list |
| Handler.EmptyNicknameAuthEvicts | src/main/java/org/study/platform/socket/ClientHandler.java:31-33 | the handshake `AUTH:<id>:` of a client with an empty nickname takes that path: the trailing empty field is dropped, the connection closes and the id is removed from the registry |
| Handler.NoHandshakeIsAnonymous | src/main/java/org/study/platform/socket/ClientHandler.java:30 | a first line that is not a handshake registers nothing and sends nothing, and the handler keeps reading |
| Handler.HandleLine | src/main/java/org/study/platform/socket/ClientHandler.java:59-69 | `CHAT:m` gives every registered user `<nick>: m`; `POST_READ:p` gives every registered user `POST_READ:<id>:p`; any other line sends nothing |
| Handler.AnonymousChat | src/main/java/org/study/platform/socket/ClientHandler.java:60-63 | a chat line from a handler without a handshake is relayed under the name `null` |
| Handler.PostReadRelay | src/main/java/org/study/platform/socket/ClientHandler.java:64-67 | a read notice is relayed to every registered user as `POST_READ:<user id>:<post>` |
| Handler.Disconnect | src/main/java/org/study/platform/socket/ClientHandler.java:79-84 | an anonymous handler changes nothing; an authenticated one is removed, and every other registered user receives the new list; no other user's entry changes |
| Handler.DisconnectTwice | src/main/java/org/study/platform/socket/ClientHandler.java:79-84 | a second disconnect leaves the registry as the first one did, but broadcasts the user list again |
| Handler.SameIdLastWins | src/main/java/org/study/platform/socket/ClientHandler.java:36 | two handshakes with the same id leave the second nickname registered, with no change to the count |
| Handler.SessionLeavesNoTrace | src/main/java/org/study/platform/socket/ClientHandler.java:22-56 | a session that authenticates, reads any lines and then ends leaves the registry as removing that user would |
| Handler.OpenKeepsCleanNicknames | src/main/java/org/study/platform/socket/ClientHandler.java:31-36 | the handshake never registers a nickname that contains `:` |
| Handler.HandshakeEmptyNickname | src/main/java/org/study/platform/socket/ClientHandler.java:31-36 | an `AUTH:<id>::<more>` line registers the id under the empty nickname, since the empty second field is still a field |
| Handler.DeletePut | src/main/java/org/study/platform/socket/ClientHandler.java:36 | registering and then removing the same id is the same as only removing it |
| Responses.LoadPosts | src/main/java/org/study/platform/client/ClientRoomFrame.java:187-216 | no response or a non-success response gives an empty list; otherwise there are at most as many rows as items |
| Responses.LoadPostsOfListing | src/main/java/org/study/platform/client/ClientRoomFrame.java:195-209 | when every post has a 64-bit id, a title without `&`, an author, type and date without `:` or `\|`, and a non-empty date, a success frame of its items loads exactly one row per post, with the decoded title and the kind |
| Responses.PostRowsRoundTrip | src/main/java/org/study/platform/client/ClientRoomFrame.java:198-209 | under the same conditions on each post, parsing the items of a post listing gives back each post's id, decoded title, author, kind and date |
| Responses.KindOfTypeName | src/main/java/org/study/platform/client/ClientRoomFrame.java:203-206 | the name of a stored post type (`NOTICE` or `GENERAL`, the constants of `Post.PostType`) is shown as that same kind, and the two names are told apart |
| Responses.ShortItemsSkipped | src/main/java/org/study/platform/client/ClientRoomFrame.java:200-201 | an item with fewer than five `:` fields is skipped |
| Responses.BadItemStops | src/main/java/org/study/platform/client/ClientRoomFrame.java:198-209 | an item whose id does not parse ends the loading with no rows from there on |
| Responses.BadIdStopsLoading | src/main/java/org/study/platform/client/ClientRoomFrame.java:198-213 | the rows before an item with a non-numeric id are kept, and that item and everything after it are lost |
| Responses.DateColonCut | src/main/java/org/study/platform/client/ClientRoomFrame.java:198-209 | for a post that meets the listing conditions, changing its date `d` to `d:rest` (any `rest` without `\|`) still loads one row, with the date `d`: the date is cut at its first `:` |
| Responses.EmptyDateDropsRow | src/main/java/org/study/platform/client/ClientRoomFrame.java:198-209 | a post with an empty date and an author and type without `:` or `\|` loads no row, because `split` drops the empty last field |
| Responses.EmptyReaderCountedNotListed | src/main/java/org/study/platform/client/ClientRoomFrame.java:264-277 | a reader with an empty name is counted but not listed: the count is 1 and the name list is empty |
| Responses.LoadComments | src/main/java/org/study/platform/client/ClientRoomFrame.java:224-251 | the pane is `Blank` (left empty) exactly when there is no response or it is not a success, and says "no comments" exactly for a success response with two fields; otherwise it lists the parsed entries, which may be none |
| Responses.ShortCommentItemsShowNothing | src/main/java/org/study/platform/client/ClientRoomFrame.java:234-244 | a success response none of whose items has four `:` fields also leaves the pane empty, as an empty entry list |
| Responses.LoadCommentsOfListing | src/main/java/org/study/platform/client/ClientRoomFrame.java:234-244 | when every comment has a 64-bit id, an author and date without `:` or `\|`, content without `&`, and a non-empty date, a success frame of its items shows "no comments" when empty, and otherwise one entry per comment with its decoded content |
| Responses.CommentEntriesRoundTrip | src/main/java/org/study/platform/client/ClientRoomFrame.java:236-243 | under the same conditions on each comment, parsing the items of a comment listing gives back each comment's author, date and decoded content |
| Responses.LoadReadStatus | src/main/java/org/study/platform/client/ClientRoomFrame.java:254-283 | the pane is filled exactly for a success response, and the count is the number of `\|` fields minus two |
| Responses.LoadReadStatusOfListing | src/main/java/org/study/platform/client/ClientRoomFrame.java:264-277 | when every reader name is non-empty and holds no `:` or `\|`, a success frame of reader items gives the number of readers and their names in order |
| Responses.ReaderNamesRoundTrip | src/main/java/org/study/platform/client/ClientRoomFrame.java:268-276 | when every reader name is non-empty and holds no `:` or `\|`, parsing reader items gives back each reader's name |
| Responses.AckOfFrames | src/main/java/org/study/platform/client/ClientRoomFrame.java:316-325 | the outcome of a create or delete request: a server success frame reads as success, and a server error frame reads as failure carrying its message from the third `\|` field |
| Responses.EmptyErrorMessageFallsBack | src/main/java/org/study/platform/client/ClientRoomFrame.java:403-411 | an error frame with an empty message falls back to the default message, because `split` drops the empty trailing field |
| Responses.SuccessParts | src/main/java/org/study/platform/client/ClientRoomFrame.java:195-197 | a success frame splits back into its tag, `SUCCESS` and its items |
| Push.Route | src/main/java/org/study/platform/client/RoomFrame.java:311-356 | every action the router takes is justified by the message: the prefix of its branch, the selected post named in field 1, or the name and roster fields |
| Push.RoomUsersOfRoster | src/main/java/org/study/platform/client/RoomFrame.java:358-371 | a frame `a:b:` followed by comma-joined `key:name` items, with no `,` or `:` inside keys and names, reads as exactly the items' non-empty names in order; an item with an empty name is skipped |
| Push.RouteNewPost | src/main/java/org/study/platform/client/RoomFrame.java:315-318 | a message that starts with `NEW_POST:<room>` reloads the posts |
| Push.RoutePostDeleted | src/main/java/org/study/platform/client/RoomFrame.java:319-324 | a message that starts with `POST_DELETED:<room>` reloads the posts and clears the detail view |
| Push.RouteComment | src/main/java/org/study/platform/client/RoomFrame.java:325-329 | `NEW_COMMENT` reloads the comments exactly when a post is selected and field 1 names it |
| Push.RouteRead | src/main/java/org/study/platform/client/RoomFrame.java:330-334 | `POST_READ` reloads the read status exactly when a post is selected and field 1 names it |
| Push.RouteJoin | src/main/java/org/study/platform/client/RoomFrame.java:335-340 | `ROOM_JOIN:<room>` announces the name in field 3 when there are at least four fields, and does nothing otherwise |
| Push.RouteLeave | src/main/java/org/study/platform/client/RoomFrame.java:341-346 | `ROOM_LEAVE:<room>` announces the name in field 3 when there are at least four fields |
| Push.RouteRoster | src/main/java/org/study/platform/client/RoomFrame.java:347-349 | `ROOM_USERLIST:<room>` shows the parsed roster when it has three fields, and does nothing otherwise |
| Push.UnknownFramesIgnored | src/main/java/org/study/platform/client/RoomFrame.java:315-349 | a message with none of the seven prefixes has no effect |
| Push.RoomTagMissesPostBranches | src/main/java/org/study/platform/client/RoomFrame.java:315-334 | a `ROOM_` message never reaches the post, comment or read branches, so the order of the branches does not shadow it |
| Interop.NewPostReloads | src/main/java/org/study/platform/socket/ConnectionManager.java:130-131 | the `NEW_POST` frame the server builds for a room makes that room's window reload its posts |
| Interop.PostDeletedReloads | src/main/java/org/study/platform/socket/ConnectionManager.java:137-139 | the `POST_DELETED` frame makes the room's window reload and clear |
| Interop.NewCommentReloads | src/main/java/org/study/platform/socket/ConnectionManager.java:142-144 | the server's `NEW_COMMENT` frame reloads the comments exactly in a window whose selected post is that post |
| Interop.NotifyPostReadReloads | src/main/java/org/study/platform/socket/ConnectionManager.java:147-149 | the server's `POST_READ:p:u:nick` frame reloads the read status exactly where post `p` is selected |
| Interop.HandlerPostReadMisroutes | src/main/java/org/study/platform/socket/ClientHandler.java:64-67 | the handler's `POST_READ:<user>:<post>` relay puts the user id where the client looks for the post id, so it reloads only a window whose selected post id equals the sender's user id |
| Interop.NewPostFields | src/main/java/org/study/platform/socket/ConnectionManager.java:131 | a `NEW_POST` frame splits into six fields, and its title field decodes back to the title when the title has no `&` |
| Interop.NewPostAuthorNotEncoded | src/main/java/org/study/platform/socket/ConnectionManager.java:131 | the author name is not encoded, so a `:` in it yields a seventh field |
| Interop.NewCommentFields | src/main/java/org/study/platform/socket/ConnectionManager.java:143 | for an author without `:`, a `NEW_COMMENT` frame carries the post and comment ids in fields 1 and 2; for non-empty content it has five fields, the author in field 3, and a content field that decodes back to the content when the content has no `&` |
| Interop.JoinAnnounced | src/main/java/org/study/platform/socket/ConnectionManager.java:40 | the server's `ROOM_JOIN` frame announces the joiner's nickname in its room's window, or nothing when the nickname is empty |
| Interop.LeaveAnnounced | src/main/java/org/study/platform/socket/ConnectionManager.java:51 | the server's `ROOM_LEAVE` frame announces the leaver's nickname in its room's window |
| Interop.EntriesOfRoster | src/main/java/org/study/platform/client/RoomFrame.java:358-371 | for nicknames without `,` and `:`, splitting the comma-joined `id:nick` items and taking field 1 of each gives the non-empty nicknames in order; an empty one leaves `id:`, which is skipped |
| Interop.ShownAllNicknames | src/main/java/org/study/platform/client/RoomFrame.java:364-368 | when no nickname is empty, every member is shown, in roster order |
| Interop.ShownDropsEmpty | src/main/java/org/study/platform/client/RoomFrame.java:364-368 | a member with an empty nickname makes the shown list shorter than the roster |
| Interop.ShownMembers | src/main/java/org/study/platform/client/RoomFrame.java:364-368 | a name is shown exactly when it is some member's non-empty nickname |
| Interop.RosterRoundTrip | src/main/java/org/study/platform/client/RoomFrame.java:358-371 | when no registered nickname holds `,` or `:`, the room roster the server builds routes, in the room's window, to exactly the registered members' non-empty nicknames in roster order |
| Interop.RosterUsers | src/main/java/org/study/platform/client/RoomFrame.java:358-371 | when no registered nickname holds `,` or `:`, the roster parser reads the room roster frame the server builds as exactly the registered members' non-empty nicknames, in roster order |
| Interop.EmptyNicknameNotShown | src/main/java/org/study/platform/client/RoomFrame.java:364-368 | a room member registered under the empty nickname is missing from the roster the window shows, which is shorter than the room's roster |
| Interop.CommaNicknameCut | src/main/java/org/study/platform/client/RoomFrame.java:362-368 | a sole member whose nickname is `a,b` is shown as `a` alone: the roster's comma split cuts the nickname and the remainder `b` has no `:` field |
| Interop.RoomTwelveRosterInRoomOne | src/main/java/org/study/platform/client/RoomFrame.java:347 | when no registered nickname holds `,` or `:`, the window of room 1 also accepts room 12's roster and shows room 12's members with a non-empty nickname |
| Rooms.CreateRoom | src/main/java/org/study/platform/service/RoomService.java:23-26 | a new room with the given name and creator is stored under a fresh id, and no other room changes |
| Rooms.DeleteRoom | src/main/java/org/study/platform/service/RoomService.java:30-43 | a missing room and a non-creator are each an error exactly when they occur, and leave the store unchanged; otherwise exactly that room is removed |
| Rooms.FindByCreatorId | src/main/java/org/study/platform/service/RoomService.java:61-63 | exactly the rooms with that creator, in ascending id order |
| Rooms.SearchByName | src/main/java/org/study/platform/service/RoomService.java:56-58 | exactly the rooms whose name contains the query, in ascending id order |
| Rooms.ContainedPiece | src/main/java/org/study/platform/service/RoomService.java:56-58 | a match of the search occurs in the name at some index |
| Rooms.PieceContained | src/main/java/org/study/platform/service/RoomService.java:56-58 | a query that occurs in the name at some index is a match |
| Rooms.CreatedRoomListed | src/main/java/org/study/platform/service/RoomService.java:23-26 | a new room is listed among its creator's rooms and found by its own name |
| Rooms.EmptyQueryMatchesAll | src/main/java/org/study/platform/service/RoomService.java:56-58 | the empty query finds every room |
| Rooms.CreateThenDelete | src/main/java/org/study/platform/service/RoomService.java:30-43 | a room deleted by its creator right after being created leaves the rooms as they were |
| Posts.CreatePost | src/main/java/org/study/platform/service/PostService.java:27-43 | a notice for a missing room and a notice by a non-creator are each rejected exactly when they occur; a general post is always stored, with no check; a stored post has no assignment flag |
| Posts.UpdatePost | src/main/java/org/study/platform/service/PostService.java:47-62 | a missing post and a non-author are errors exactly when they occur; on success only the title and content of that post change |
| Posts.DeletePost | src/main/java/org/study/platform/service/PostService.java:66-79 | a missing post and a non-author are errors exactly when they occur; on success exactly that post is removed |
| Posts.FindByRoomId | src/main/java/org/study/platform/service/PostService.java:82-84 | exactly the room's posts, in descending id order |
| Posts.FindNotices | src/main/java/org/study/platform/service/PostService.java:87-89 | exactly the room's notices |
| Posts.FindGeneral | src/main/java/org/study/platform/service/PostService.java:92-94 | exactly the room's general posts |
| Posts.NoticeGeneralPartition | src/main/java/org/study/platform/service/PostService.java:87-94 | the notice list and the general list split the room's posts, with no post in both |
| Posts.RoomListNewestFirst | src/main/java/org/study/platform/service/PostService.java:82-84 | under a clock that never runs backwards, the room's list is ordered newest first |
| Posts.CreateThenDelete | src/main/java/org/study/platform/service/PostService.java:66-79 | a post its author deletes right after creating it leaves the board as it was |
| Comments.CreateComment | src/main/java/org/study/platform/service/CommentService.java:23-26 | a comment with the given post, author and content is stored under a fresh id |
| Comments.DeleteComment | src/main/java/org/study/platform/service/CommentService.java:30-43 | a missing comment and a non-author are errors exactly when they occur; on success exactly that comment is removed |
| Comments.FindByPostId | src/main/java/org/study/platform/service/CommentService.java:46-48 | exactly the post's comments, in ascending id order |
| Comments.ListingOldestFirst | src/main/java/org/study/platform/service/CommentService.java:46-48 | under a clock that never runs backwards, the post's comments are in ascending creation order |
| Comments.NewCommentListedLast | src/main/java/org/study/platform/service/CommentService.java:23-26 | a new comment is appended to its post's listing, and every other post's listing is unchanged |
| Comments.CreateThenDelete | src/main/java/org/study/platform/service/CommentService.java:30-43 | a comment its author deletes right after creating it leaves the comments as they were |
| ReadStatus.MarkAsRead | src/main/java/org/study/platform/service/PostReadStatusService.java:22-30 | an error exactly when the pair has already read the post; otherwise a record for the pair is stored under a fresh id |
| ReadStatus.MarkAsReadEffect | src/main/java/org/study/platform/service/PostReadStatusService.java:22-45 | after a successful mark, the pair has read the post, at most one record per pair remains, and no other pair's read state changes |
| ReadStatus.MarkTwiceRefused | src/main/java/org/study/platform/service/PostReadStatusService.java:24-26 | marking the same pair twice is refused the second time |
| ReadStatus.ByPost | src/main/java/org/study/platform/service/PostReadStatusService.java:33-35 | exactly the records of that post |
| ReadStatus.ByUser | src/main/java/org/study/platform/service/PostReadStatusService.java:38-40 | exactly the records of that user |
| ReadStatus.ByPostReadersDistinct | src/main/java/org/study/platform/service/PostReadStatusService.java:33-35 | with one record per pair, a post's readers are listed once each |
| Users.FindByUsername | src/main/java/org/study/platform/service/UserService.java:45-47 | finds an account exactly when the username is taken, and the account found has that username |
| Users.Register | src/main/java/org/study/platform/service/UserService.java:21-27 | a taken username is an error exactly when it occurs; otherwise the account is stored under a fresh id |
| Users.Login | src/main/java/org/study/platform/service/UserService.java:29-39 | an unknown username is an error exactly when it occurs; a success returns a stored account with the given username and password |
| Users.RegisterKeepsNamesUnique | src/main/java/org/study/platform/service/UserService.java:21-27 | usernames stay unique across a successful registration |
| Users.LoginFindsTheAccount | src/main/java/org/study/platform/service/UserService.java:29-39 | with unique usernames, a login returns the stored account when the password matches, and a wrong-password error otherwise |
| Users.RegisterThenLogin | src/main/java/org/study/platform/service/UserService.java:21-39 | after registering, a login with the same password returns that account, and any other password is refused |
| Assignments.Flag | src/main/java/org/study/platform/service/AssignmentService.java:39-42 | the post's assignment flag is set when the post exists, and nothing changes otherwise |
| Assignments.CreateAssignment | src/main/java/org/study/platform/service/AssignmentService.java:34-45 | the assignment is always stored; the post is flagged only if it exists; submissions are untouched |
| Assignments.DeleteAssignment | src/main/java/org/study/platform/service/AssignmentService.java:59-67 | an absent assignment changes nothing; otherwise it is removed and its post's flag is cleared if the post exists |
| Assignments.CreateThenDelete | src/main/java/org/study/platform/service/AssignmentService.java:34-67 | deleting a new assignment restores the assignments and leaves the post's flag cleared |
| Assignments.GetSubmission | src/main/java/org/study/platform/service/AssignmentService.java:119-126 | a submission is found exactly when `hasSubmitted` holds, and it belongs to that assignment and user |
| Assignments.Submit | src/main/java/org/study/platform/service/AssignmentService.java:71-84 | a second submission for the pair is rejected exactly when one exists; a new one is SUBMITTED, with no score or feedback and the given file fields |
| Assignments.SubmitKeepsOnePerPair | src/main/java/org/study/platform/service/AssignmentService.java:74-76 | a successful submission keeps one submission per pair, and submitting again is refused |
| Assignments.UpdateSubmission | src/main/java/org/study/platform/service/AssignmentService.java:94-111 | a missing submission and a non-owner are errors exactly when they occur; on success the content is replaced, the file fields change only when a file name is given, and nothing else changes |
| Assignments.GradeSubmission | src/main/java/org/study/platform/service/AssignmentService.java:130-140 | a missing submission is the only error; otherwise the score, feedback, GRADED status and grading time are set, with no check on who grades |
| Assignments.EditsKeepOnePerPair | src/main/java/org/study/platform/service/AssignmentService.java:94-140 | updating and grading keep one submission per pair |
| Assignments.ByAssignment | src/main/java/org/study/platform/service/AssignmentService.java:114-116 | exactly the assignment's submissions, in descending id order |
| Assignments.ByAssignmentNewestFirst | src/main/java/org/study/platform/service/AssignmentService.java:114-116 | under a clock that never runs backwards, the submissions are ordered by submission time, newest first |
| Store.Where | src/main/java/org/study/platform/repository/PostRepository.java:12-18 | a derived query returns exactly the rows it accepts, in ascending id order |
| Store.WhereInsert | src/main/java/org/study/platform/repository/CommentRepository.java:15 | a new row the query accepts is listed after all earlier ones |
| Store.ReverseIsNewestFirst | src/main/java/org/study/platform/repository/PostRepository.java:21 | under a stamp that never decreases with the id, descending id order is newest first |
| JString.SplitJoin | src/main/java/org/study/platform/client/RoomFrame.java:358-371 | Java `split` of a join of separator-free fields whose last field is non-empty gives back the fields |
| JLong.LongRoundTrip | src/main/java/org/study/platform/socket/ClientHandler.java:32 | `Long.parseLong` of `Long.toString(n)` is `n` for every 64-bit `n` |

## Left out

- Sockets, threads and stream I/O are not modelled: the accept loop, the per-connection read loop, `sendMessage` and the closing of streams. A connection is identified by its user id, so two connections that share an id are not told apart. `SocketServer.java` and `SocketClient.java` are not part of this model.
- `ConcurrentHashMap` concurrency is not modelled. The registry is sequential state.
- Hash-map iteration order is not modelled. The client map is an association list in insertion order, which stands in for that order in rosters. A fan-out is one `Send` to a set of recipients, so no order among recipients is claimed.
- The server log lines (`System.out.println`) are I/O and are not modelled.
- The Swing UI is not modelled. UI strings become datatypes: `PostKind`, `CommentPane`, `ReadPane`, `Ack` and `PushAction`. A fixed error text becomes `Failed(None)`.
- Only the parsing and routing parts of `ClientRoomFrame` and `RoomFrame` are modelled. The network calls that fetch a response are a parameter (`Option<string>`, where `None` means no response).
- `formatFileSize` (floating point), the bootstrap class and its dialogs are not modelled.
- JPA annotations and `@Transactional` are not modelled. A thrown exception is an `Err` that leaves every table unchanged. Id generation is an identity column: each insert takes the next id, and ids are never reused.
- `LocalDateTime.now()` is a `now` parameter. Ordering by `createdAt` or `submittedAt` is modelled as id order. The lemmas that speak about times assume a clock that never runs backwards (`Store.Monotone`).
- `updatedAt` on posts is not modelled.
- Store.Where: a derived query with no `OrderBy` has no order that the database promises. The model lists it in ascending id order, which is insertion order.
- The `findById`/`findAll` pass-throughs are not modelled: `findAllRooms`, the services' `findById`, the assignment's `findById`/`findByPostId` and `findSubmissionById`. The three-argument `submitAssignment` overload, which passes no file, is covered by `Submit` with `None` file fields.
- The Assignment, Comment and User entities are not part of this model. Their fields are taken from the constructor calls in the services. The post's assignment flag is a boolean on the post record: the `Post` entity as given declares no such field, and the flag is taken from the `setHasAssignment` calls in `AssignmentService` (lines 39-42 and 62-63). `SubmissionStatus.Returned` exists in the model but no modelled operation sets it.
- Java `null` is not modelled for ids, titles, contents and nicknames. The exceptions are `encode(null)`/`decode(null)`, the nullable submission columns, and the handler's unset id and nickname.
- Users.FindByUsername: when several rows share a username (which `register` prevents), the lowest id is returned. The repository's choice in that case is not modelled. The same applies to Assignments.GetSubmission.
- Rooms.SearchByName: SQL `LIKE` is modelled as case-sensitive substring search. Collation and wildcard characters in the query are not modelled.
- JLong.LongRoundTrip: `Long.parseLong` is modelled for ASCII digits with an optional sign, within the 64-bit range. Non-ASCII digits are not modelled.
- Handler.Open: the handshake is modelled up to the read loop. What follows is `HandleLine`, once per line, and then `Disconnect`. An I/O error in the middle of a session is not modelled.
- Interop.RosterRoundTrip: requires every registered nickname to be free of `,` and `:`. The handshake guarantees the `:` half (`Handler.OpenKeepsCleanNicknames`); a comma is not rejected by the code, and for such a nickname the window shows a cut name (`Interop.CommaNicknameCut`) instead of the nickname.
- Interop.RosterUsers: the same condition as `Interop.RosterRoundTrip`, for the same reason.
- Interop.EntriesOfRoster: the same condition on the roster's nicknames, for the same reason.
- Interop.RoomTwelveRosterInRoomOne: the same condition as `Interop.RosterRoundTrip`, for the same reason.
- Responses.LoadPostsOfListing: requires each post to have a 64-bit id, a title without `&`, an author, type and date without `:` or `|`, and a non-empty date. The code that prints the listing on the server is not part of this model, so the date's text form is not known here; the text form of a `LocalDateTime` holds `:`, and such a date is shown cut at its first `:` (`Responses.DateColonCut`). An author or type with `:` shifts the later fields: a notice by `x:y` loads as a general post by `x` with `NOTICE` in the date column. An empty date loses the row (`Responses.EmptyDateDropsRow`). A title with `&` does not decode back to itself.
- Responses.PostRowsRoundTrip: the same conditions as `Responses.LoadPostsOfListing`, for the same reasons.
- Responses.LoadCommentsOfListing: requires each comment to have a 64-bit id, an author and date without `:` or `|`, content without `&`, and a non-empty date. A `:` in the author or date shifts the later fields, an empty date leaves the item with three fields so it is skipped, and content with `&` does not decode back to itself.
- Responses.CommentEntriesRoundTrip: the same conditions as `Responses.LoadCommentsOfListing`, for the same reasons.
- Responses.LoadReadStatusOfListing: requires each reader name to be non-empty and free of `:` and `|`. An empty name is counted but not listed (`Responses.EmptyReaderCountedNotListed`), and a name with `:` is listed only up to its first `:`.
- Responses.ReaderNamesRoundTrip: the same conditions as `Responses.LoadReadStatusOfListing`, for the same reasons.
- Interop.NewCommentFields: requires an author without `:`. The field layout is promised only for non-empty content, since empty content leaves an empty last field that `split` drops, and the content decodes back only when it has no `&`.
- Registry.DisconnectAll: a throwing `sendMessage` or `disconnect` is not modelled, since the `catch` only ignores it.
