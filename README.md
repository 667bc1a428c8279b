# Chat server room registry and chat client, in Dafny

A model of the two halves of a small WebSocket chat.

**Server.** `ChatWebSocketHandler` keeps three maps:

- `chatRooms`: room name to the ordered list of sessions in the room;
- `sessionRoomMap`: session to its room;
- `sessionUserMap`: session to the client id it joined with.

It reads pipe-separated text frames:

- `JOIN|room|clientId` moves the session into a room.
- `MESSAGE|room|_|timestamp|type|content` broadcasts
  `clientId|room|timestamp|type|content` to every session listed in the room.
- Anything else is ignored.

**Client.** The React `App` component does the following:

- decodes incoming frames into a message log;
- encodes outgoing ones as `name|timestamp|TEXT|message`;
- guards sending and the display-name change with `trim()` checks.

Files:

- `wrappers.dfy` (`Wrappers`): `Option` and `Result`.
- `split.dfy` (`Split`): the two splitting functions the sides use.
  - JavaScript's `split('|')` keeps every field (`SplitAll`).
  - Java's `split("\\|")` drops trailing empty fields and returns the input whole when it has no bar (`JavaSplit`).
  - `JoinFields` puts fields back together; it is the inverse of `SplitAll` (`JoinSplit`, `SplitJoin`).
  - `JavaSplit` gives the joined fields back only when there are two or more, none holds a bar and the last is not empty (`JavaSplitJoin`).
- `room_registry.dfy` (`RoomRegistry`): the server's three maps as a value (`Registry`) and the membership invariant (`Valid`).
  - It defines `Join`, `Leave` and `PutIfAbsent` as functions, with reference definitions (`Inserted`, `Removed`) they are proved equal to.
  - It proves lemmas about membership, ordering and undoing.
- `dispatch.dfy` (`Dispatch`): `handleTextMessage` as a function `HandleText` from the registry and a payload to the new registry and the result.
  - The result is the list of deliveries (recipient, frame) or the `ArrayIndexOutOfBoundsException` the handler raises.
  - Lemmas describe each kind of frame as a client writes it.
- `chat_server.dfy` (`ChatServer`): class `ChatWebSocketHandler`, with the three maps as fields updated in place.
  - Every method is proved to change them exactly as the matching function says.
  - Every public callback is proved to keep the invariant; `LeaveRoom` is the helper that only follows `Leave`.
  - `BroadcastMessage` is the loop over the room's list.
- `chat_client.dfy` (`ChatClient`): the JavaScript `trim()` check, the frame codec, and class `App`, whose fields the event handlers update.

Choices:

- **Sessions** are an abstract type with equality.
- **Broadcasting** returns the frames it would send instead of sending them.
- **The client clock** (`new Date().toISOString()`) is a `timestamp` parameter of `SendMessage`.
- **The socket** is a boolean fixed when the component is created.
- **The invariant as a precondition.** The server's callbacks take the membership invariant as a precondition.
  - The constructor establishes it and every callback keeps it, so it holds in every state the handler can reach.
  - `leaveRoom` itself needs only that a session's room exists, because the Java code would otherwise dereference `null`.
- **Index-out-of-bounds error.** A `MESSAGE` from a session in a room with fewer than six fields is modelled as the error `IndexOutOfBounds(index, length)`.
  - `index` is the first of fields 3, 4 and 5 that the code reads and that is missing.
  - No map has changed at that point.

Field counts and frame layouts:

- `App.tsx` decodes every frame whatever its field count; fields it lacks are `undefined`.
- The server ignores frames of fewer than two fields, and ignores other short frames too, except a short `MESSAGE` from a joined session, which throws.
- The server broadcasts five fields, `clientId|room|timestamp|type|content`.
- The client reads fields 0, 1 and 3 of a frame as name, timestamp and content.
- Each side is modelled on its own terms.

## Model

| member | source | states |
|---|---|---|
| `Split.SplitAll` | frontend/src/App.tsx:21 | JavaScript's split yields one field more than there are bars, and no field contains a bar |
| `Split.JoinSplit` | frontend/src/App.tsx:21 | joining the fields of a split gives the string back: splitting loses only the separators |
| `Split.SplitJoin` | frontend/src/App.tsx:21 | splitting joined fields that hold no bar gives the fields back |
| `Split.StripTrailingEmpty` | backend/src/main/java/com/example/demo/ChatWebSocketHandler.java:30 | Java's limit-0 split keeps a prefix of the fields, drops only empty ones, and never ends in an empty field |
| `Split.JavaSplit` | backend/src/main/java/com/example/demo/ChatWebSocketHandler.java:30 | the fields Java's limit-0 split on the bar yields: at most one more than there are bars, none holding a bar; `JavaSplitIsPrefix`, `JavaSplitOfJoin` and `JavaSplitJoin` relate it to JavaScript's split and to joining |
| `Split.JavaSplitOfJoin` | backend/src/main/java/com/example/demo/ChatWebSocketHandler.java:30 | Java's split of two or more joined bar-free fields is those fields less the trailing empty ones |
| `Split.JavaSplitJoin` | backend/src/main/java/com/example/demo/ChatWebSocketHandler.java:30 | Java's split gives back joined fields unchanged when at least two, bar-free, and the last not empty |
| `Split.JavaSplitIsPrefix` | backend/src/main/java/com/example/demo/ChatWebSocketHandler.java:30 | for every payload, Java's split is a prefix of JavaScript's split from which only empty fields were dropped; for a payload holding a bar, every trailing empty field is dropped, so a payload of bars only gives no field; a payload without a bar is the one field (`""` gives `[""]`) |
| `RoomRegistry.EmptyValid` | backend/src/main/java/com/example/demo/ChatWebSocketHandler.java:15-19 | the three empty maps the handler starts with satisfy the membership invariant |
| `RoomRegistry.MembershipExactlyOnce` | backend/src/main/java/com/example/demo/ChatWebSocketHandler.java:15-19 | under the invariant a session in a room is listed exactly once there and in no other list; a session in no room is listed nowhere |
| `RoomRegistry.MembersAreMapped` | backend/src/main/java/com/example/demo/ChatWebSocketHandler.java:102 | the list `chatRooms.get(room)` holds exactly the sessions mapped to `room`, each once |
| `RoomRegistry.Members` | backend/src/main/java/com/example/demo/ChatWebSocketHandler.java:102 | `chatRooms.get(room)`: a non-empty result is the room's own list, so an absent room gives none; `MembersAreMapped` says whom it holds |
| `RoomRegistry.Without` | backend/src/main/java/com/example/demo/ChatWebSocketHandler.java:92 | the reference removal: a session is in the result iff it is in the list and is not the removed one |
| `RoomRegistry.IndexOf` | backend/src/main/java/com/example/demo/ChatWebSocketHandler.java:92 | the index `List.remove` removes at: it holds the session and no earlier index does |
| `RoomRegistry.RemoveFirst` | backend/src/main/java/com/example/demo/ChatWebSocketHandler.java:92 | `List.remove(Object)`: one element shorter exactly when the session is listed, and nothing new appears; `RemoveFirstCount` and `RemoveFirstIsWithout` give its counts and its equality with `Without` |
| `RoomRegistry.RemoveFirstCount` | backend/src/main/java/com/example/demo/ChatWebSocketHandler.java:92 | `List.remove(s)` takes one `s` out of the list's multiset, if any, and keeps every other count |
| `RoomRegistry.RemoveFirstIsWithout` | backend/src/main/java/com/example/demo/ChatWebSocketHandler.java:92 | on a list holding `s` at most once, `List.remove(s)` is removal of every `s` keeping the others' order |
| `RoomRegistry.Leave` | backend/src/main/java/com/example/demo/ChatWebSocketHandler.java:89-98 | after `leaveRoom` the session has no room and the set of rooms is unchanged |
| `RoomRegistry.LeaveEffect` | backend/src/main/java/com/example/demo/ChatWebSocketHandler.java:89-98 | `leaveRoom(s)` removes `s` from its room's list and both maps, keeps every room (even emptied), changes nothing for other sessions, and is a no-op when `s` is in no room |
| `RoomRegistry.LeaveIsRemoved` | backend/src/main/java/com/example/demo/ChatWebSocketHandler.java:89-98 | `leaveRoom` equals the reference `Removed`: `s` out of every list and both maps |
| `RoomRegistry.LeaveKeepsValid` | backend/src/main/java/com/example/demo/ChatWebSocketHandler.java:89-98 | `leaveRoom` keeps the membership invariant |
| `RoomRegistry.Join` | backend/src/main/java/com/example/demo/ChatWebSocketHandler.java:72-86 | after `joinRoom` the room exists and the session is mapped to it |
| `RoomRegistry.PutIfAbsent` | backend/src/main/java/com/example/demo/ChatWebSocketHandler.java:73 | `putIfAbsent(room, new ArrayList<>())`: the room key is added, every existing room keeps its list, a new room gets an empty list, and the session maps are untouched |
| `RoomRegistry.PutIfAbsentEffect` | backend/src/main/java/com/example/demo/ChatWebSocketHandler.java:73 | `putIfAbsent` leaves existing rooms alone and gives a new room an empty list |
| `RoomRegistry.JoinIsInserted` | backend/src/main/java/com/example/demo/ChatWebSocketHandler.java:72-86 | `joinRoom` equals the reference `Inserted`: `s` last in the room's list, out of every other list, mapped to the room and client id |
| `RoomRegistry.JoinEffect` | backend/src/main/java/com/example/demo/ChatWebSocketHandler.java:72-86 | after `joinRoom(s, r, c)` room `r` exists and lists `s` last after its other members in order; `s` left its previous room; `s` maps to `r` and `c`; other sessions and rooms are unchanged; only `r` may be a new key |
| `RoomRegistry.InsertionKeepsValid` | backend/src/main/java/com/example/demo/ChatWebSocketHandler.java:72-86 | moving a session to the end of a room keeps the membership invariant |
| `RoomRegistry.JoinKeepsValid` | backend/src/main/java/com/example/demo/ChatWebSocketHandler.java:72-86 | `joinRoom` keeps the membership invariant |
| `RoomRegistry.RejoinMovesToEnd` | backend/src/main/java/com/example/demo/ChatWebSocketHandler.java:76-81 | rejoining one's own room moves the session to the end without duplicating it: same length, same multiset, session last |
| `RoomRegistry.LeaveUndoesJoin` | backend/src/main/java/com/example/demo/ChatWebSocketHandler.java:72-98 | leaving after joining is leaving from the registry with the room created: joining leaves no other trace |
| `Dispatch.Deliveries` | backend/src/main/java/com/example/demo/ChatWebSocketHandler.java:104-106 | one delivery of the frame per recipient, in the recipients' order |
| `Dispatch.OutFrame` | backend/src/main/java/com/example/demo/ChatWebSocketHandler.java:60 | the broadcast frame, client id, room, timestamp, type and content joined by bars: splitting it gives the five fields back when none holds a bar |
| `Dispatch.HandleText` | backend/src/main/java/com/example/demo/ChatWebSocketHandler.java:28-69 | `handleTextMessage`: an exception leaves the maps unchanged and comes only from a session in a room sending a frame with a bar; `HandleKeepsValid`, `OnlyJoinChangesState` and `OnlyJoinedMessageSends` hold for every payload, and `JoinFrame` and `MessageFrame` give the exact effect for frames written as joined fields whose last field is not empty |
| `Dispatch.HandleFields` | backend/src/main/java/com/example/demo/ChatWebSocketHandler.java:32-68 | the dispatch on the split fields: only a JOIN with at least three fields changes a map, and an exception comes only from a `MESSAGE` of two to five fields from a session in a room, with no map changed |
| `Dispatch.HandleKeepsValid` | backend/src/main/java/com/example/demo/ChatWebSocketHandler.java:28-98 | every frame keeps the membership invariant, and the set of rooms only grows |
| `Dispatch.OnlyJoinChangesState` | backend/src/main/java/com/example/demo/ChatWebSocketHandler.java:32-67 | only a JOIN with at least three fields changes any map; MESSAGE, unknown commands and short frames never do |
| `Dispatch.OnlyJoinedMessageSends` | backend/src/main/java/com/example/demo/ChatWebSocketHandler.java:52-64 | only a MESSAGE from a session that is in a room sends anything or fails |
| `Dispatch.SingleFieldIgnored` | backend/src/main/java/com/example/demo/ChatWebSocketHandler.java:30-35 | a payload without a bar is one field and changes and sends nothing |
| `Dispatch.UnknownCommandIgnored` | backend/src/main/java/com/example/demo/ChatWebSocketHandler.java:66-67 | a frame whose command is neither JOIN nor MESSAGE changes and sends nothing |
| `Dispatch.JoinFrame` | backend/src/main/java/com/example/demo/ChatWebSocketHandler.java:44-49 | a JOIN frame with room and client id, further fields ignored, is `joinRoom(session, room, clientId)` and sends nothing |
| `Dispatch.JoinWithoutClientIgnored` | backend/src/main/java/com/example/demo/ChatWebSocketHandler.java:45 | a JOIN frame with a room and no client id, with or without a trailing bar (the split drops the trailing empty field), change and send nothing |
| `Dispatch.MessageFrame` | backend/src/main/java/com/example/demo/ChatWebSocketHandler.java:52-60 | a MESSAGE from a joined session sends the five fields client id, room, timestamp, type and content to every session listed in the frame's room, in list order, with `clientId` from `sessionUserMap` (field 2 ignored) and fields after the sixth ignored; no map changes |
| `Dispatch.BroadcastReachesRoom` | backend/src/main/java/com/example/demo/ChatWebSocketHandler.java:101-110 | the frame is delivered to every session mapped to the room and to no other, no delivery is repeated, and nobody gets it when the room does not exist |
| `Dispatch.ShortMessageFails` | backend/src/main/java/com/example/demo/ChatWebSocketHandler.java:55-57 | a MESSAGE from a joined session with fewer than six fields throws at the first missing field among 3, 4 and 5 |
| `Dispatch.EmptyContentFails` | backend/src/main/java/com/example/demo/ChatWebSocketHandler.java:30-57 | a six-field MESSAGE with empty content loses that field to Java's split and throws reading field 5 |
| `ChatServer.ChatWebSocketHandler.constructor` | backend/src/main/java/com/example/demo/ChatWebSocketHandler.java:15-19 | the handler starts with three empty maps, which satisfy the invariant |
| `ChatServer.ChatWebSocketHandler.HandleTextMessage` | backend/src/main/java/com/example/demo/ChatWebSocketHandler.java:28-69 | the maps and the outcome are those of `HandleText`; the invariant is kept |
| `ChatServer.ChatWebSocketHandler.JoinRoom` | backend/src/main/java/com/example/demo/ChatWebSocketHandler.java:72-86 | the maps become `Join` of the old maps; the invariant is kept |
| `ChatServer.ChatWebSocketHandler.LeaveRoom` | backend/src/main/java/com/example/demo/ChatWebSocketHandler.java:89-98 | the maps become `Leave` of the old maps |
| `ChatServer.ChatWebSocketHandler.BroadcastMessage` | backend/src/main/java/com/example/demo/ChatWebSocketHandler.java:101-110 | the loop sends the frame to each session of the room's list in order, none when the room is absent, and changes nothing |
| `ChatServer.ChatWebSocketHandler.AfterConnectionClosed` | backend/src/main/java/com/example/demo/ChatWebSocketHandler.java:113-116 | closing a connection is `leaveRoom`; the invariant is kept |
| `ChatClient.TrimStart` | frontend/src/App.tsx:34 | the result is a suffix, everything dropped is white space, and it does not start with white space |
| `ChatClient.TrimEnd` | frontend/src/App.tsx:34 | the result is a prefix, everything dropped is white space, and it does not end with white space |
| `ChatClient.Trim` | frontend/src/App.tsx:34 | `s.trim()`: no longer than `s`, and neither starting nor ending with white space; `TrimEmptyIffBlank`, `TrimInside` and `HasText` give the rest |
| `ChatClient.TrimEmptyIffBlank` | frontend/src/App.tsx:34 | `s.trim()` is empty (falsy) exactly when every character of `s` is JavaScript white space |
| `ChatClient.TrimInside` | frontend/src/App.tsx:44 | `trim()` returns a slice of the input with only white space cut from either end |
| `ChatClient.HasText` | frontend/src/App.tsx:52 | `s.trim()` is truthy exactly when `s` is not blank |
| `ChatClient.Decode` | frontend/src/App.tsx:21-22 | the name is the text before the first bar (the whole frame when there is none); the timestamp is present iff the frame has a bar; the content iff it has at least three |
| `ChatClient.DecodeFields` | frontend/src/App.tsx:21-22 | for a frame of one or more bar-free fields, the name is field 0, the timestamp field 1 and the content field 3 when those exist; the type and every later field are dropped |
| `ChatClient.EncodeLayout` | frontend/src/App.tsx:36 | the frame is exactly name, bar, timestamp, bar, `TEXT`, bar, message, with the message untrimmed |
| `ChatClient.Encode` | frontend/src/App.tsx:36 | the frame `sendMessage` sends: JavaScript's split of it gives name, timestamp, `TEXT` and message back when none holds a bar; `EncodeLayout` gives its exact text |
| `ChatClient.DecodeEncode` | frontend/src/App.tsx:21-36 | decoding an encoded frame gives back name, timestamp and message when none contains a bar |
| `ChatClient.BarInMessageGarbles` | frontend/src/App.tsx:21-36 | a message holding a bar never decodes back to itself, since nothing escapes the separator |
| `ChatClient.App.constructor` | frontend/src/App.tsx:8-13 | the initial state: no display name, empty inputs and log, settings hidden |
| `ChatClient.App.OnMessage` | frontend/src/App.tsx:20-24 | each frame appends exactly one decoded entry at the end of the log; earlier entries and all other state are unchanged |
| `ChatClient.App.SendMessage` | frontend/src/App.tsx:33-40 | with a socket, a non-blank message and a display name, exactly one frame `Encode(name, timestamp, message)` is sent and the input cleared; otherwise nothing is sent or changed; the log is never touched |
| `ChatClient.App.ToggleSettings` | frontend/src/App.tsx:43-48 | `showSettings` always flips; the display name becomes the typed one, untrimmed, only when that is not blank; a set display name stays non-blank |
| `ChatClient.App.HandleDisplayNameSubmit` | frontend/src/App.tsx:51-56 | Enter with a non-blank typed name sets the display name and hides the settings; anything else changes nothing |

## Left out

- `TcpEchoServer.java` and `TcpClientController.java` are not part of this model.
  - They are thread, socket and `synchronized` plumbing around a list and a four-field concatenation.
  - The `removeIf` in `TcpEchoServer.java` compares a writer with a socket and never removes anything.
- `WebSocketSession.sendMessage` is not modelled.
  - A broadcast is the list of frames it would send.
  - An `IOException` partway through the loop, which would stop the remaining sends, is not modelled.
- What the framework does after `handleTextMessage` throws is outside the handler, for example closing the session.
- All `System.out.println` logging is left out, and so is `afterConnectionEstablished`, which only logs.
- Concurrency is not modelled: the `HashMap`s and `ArrayList`s are unsynchronised, and the model runs one callback at a time.
- `ChatClient.App.SendMessage`: `socket.send` is the returned frame.
  - `socketPresent` stands for an open socket. The `InvalidStateError` that `send` throws while the socket is still CONNECTING is not modelled; in that window the real handler sends nothing and does not clear the input.
  - The clock is the `timestamp` parameter.
  - React's deferred state update is the field assignment.
- WebSocket construction and closing in `useEffect`, JSX rendering, `moment` date formatting and the `onChange` setters are not modelled. The setters only copy input into `tempDisplayName` and `message`.
- `ChatClient.App.OnMessage`: the frame is assumed to be text (`event.data` as a string). Binary frames are not modelled.
- Strings are sequences of Unicode scalar values. JavaScript's UTF-16 code units and surrogate pairs are not modelled.
  - `trim()` does not depend on them, because every white space character it removes is a single code unit.
