# Overlay chat relay, modelled in Dafny

This project models the room relay of the Overlay Chat cloud server
(`server/index.js`). Clients connect over a WebSocket and create or join
private rooms under six-character codes. An admitted `joinRoom` never takes
a room above 5 members.
Members exchange chat lines and see who is present. Name and colour changes,
departures and disconnects are announced to the room. Empty rooms are
deleted.

The model has three layers.

- **Values** (`text.dfy`, `room_codes.dfy`, `protocol.dfy`):
  - JavaScript `trim`, `substring` and `toUpperCase` as far as the server relies on them;
  - the room-code alphabet, its generator and the `^[A-Z0-9]{6}$` format check;
  - name and chat-text normalisation;
  - the exact server-to-client messages and the client commands.
- **Specification** (`relay.dfy`):
  - the process state is a `State` holding three things:
    - the `rooms` registry, mapping each code to its members in insertion order;
    - the closure state of every connection: `currentRoom`, `userData`, and whether the socket is OPEN;
    - `outbox`, the ordered sequence of every frame handed to `ws.send`;
  - every handler and helper is a function on `State`;
  - `Relay.Valid` is the invariant the server keeps:
    - every registered code is a generated code;
    - no registered room is empty;
    - no socket is a member of the same room twice;
    - every member is a known connection.
- **Implementation** (`server.dfy`): the class `Server.RelayServer` updates these
  fields in place, with the source's loops:
  - the six-draw generator;
  - the `createRoom` retry loop;
  - the `forEach` fan-outs;
  - the roster `map`;
  - the shutdown loop over rooms.

  Each handler method (`Connect`, `CreateRoom`, `JoinRoom`, `SetName`, `SetColor`,
  `Chat`, `LeaveRoom`, `Close` and the dispatcher `HandleMessage`) is proved to
  reach exactly the state the matching `Relay` function computes, and to keep
  `Valid`. The helper methods (`GetRoom`, `SetMember`, `CleanupRoom`,
  `BroadcastToRoom`, `BroadcastUserList`, `Depart`, `Admit`, `Announce`) are
  proved to reach the state of the matching `Relay` function; they are called
  in the middle of a handler, where `Valid` need not hold. `PickCode` returns
  the first free code among the attempts, and `Shutdown` sends exactly
  `ShutdownNotices` for the order in which it visits the rooms.

What the relay promises is proved in `relay_properties.dfy`:
- who receives which message;
- what each command does to the registry;
- invariant preservation;
- the three rejection rules of `joinRoom`;
- a worked two-connection session.

Randomness and time are parameters. Each call of the code generator consumes
six indices below 32, which stand for `Math.floor(Math.random() * 32)`. A
`createRoom` receives the sequence of such draws for its attempts, and one of
them must yield a free code. `Date.now()` is the parameter `now`.

Some behaviours of the code are easy to miss, and some contradict the
header comment of `server/index.js` (lines 1-10), which promises "up to 5
users per room". The model follows the code and proves what it does:

- `createRoom` does not leave the connection's previous room. The connection
  stays a member there, so "a connection is in at most one room" is not an
  invariant, and `CreateRoomSpec` states that every other room is untouched.
- `joinRoom` fetches the target room before leaving the current one. When a
  connection re-joins its own room as its only member, leaving deletes the
  room, and the entry goes into the detached map. `currentRoom` then names an
  unregistered code (`RejoinAsSoleMemberDropsRoom`).
- `setName` and `setColor` re-set the member entry of whatever room is
  registered under `currentRoom`. If that room was deleted and the same code
  was created again, the connection is added to a room it never joined,
  bypassing the cap of 5 (`SetNameCanExceedCap`). The cap of 5 therefore
  holds only for `joinRoom`.
- `toUpperCase` applies the full Unicode mapping, which can lengthen a
  string: ß becomes SS and the ligature ﬁ becomes FI. A code typed as "ßßß"
  therefore normalises to SSSSSS and joins that room when it exists
  (`SharpSCodeJoins`).
- A frame whose `roomCode`, `name` or `text` is missing throws inside the
  handler, and the throw is caught. The model treats it as "no change, no
  output". A `chat` outside a room answers with its error before the text is
  read.

## Model

| member | source | states |
|---|---|---|
| Text.Trim | overlay-chat-cloud/overlay-chat-cloud/server/index.js:193 | `trim()` yields a string that neither starts nor ends with a JavaScript space and is no longer than its input |
| Text.IsSpace | overlay-chat-cloud/overlay-chat-cloud/server/index.js:193 | the characters `trim` removes are the WhiteSpace and LineTerminator code points of ECMAScript (section 22.1.3.32 of ECMA-262) |
| Text.TrimStartSpec | overlay-chat-cloud/overlay-chat-cloud/server/index.js:193 | removing leading spaces keeps a suffix, drops only spaces and leaves no leading space |
| Text.TrimEndSpec | overlay-chat-cloud/overlay-chat-cloud/server/index.js:193 | removing trailing spaces keeps a prefix, drops only spaces and leaves no trailing space |
| Text.TrimIsMiddle | overlay-chat-cloud/overlay-chat-cloud/server/index.js:193 | `trim()` keeps one contiguous middle of its input; everything dropped on either side is a space |
| Text.TrimFixesUnpadded | overlay-chat-cloud/overlay-chat-cloud/server/index.js:193 | a string without surrounding spaces is left unchanged by `trim()` |
| Text.TrimIdempotent | overlay-chat-cloud/overlay-chat-cloud/server/index.js:193 | trimming twice equals trimming once |
| Text.TrimEmptyIffAllSpace | overlay-chat-cloud/overlay-chat-cloud/server/index.js:193 | `trim()` is empty exactly when the input consists of spaces only |
| Text.TrimStartDropsSpaces | overlay-chat-cloud/overlay-chat-cloud/server/index.js:129 | leading spaces before text that does not start with a space are removed exactly |
| Text.TrimEndDropsSpaces | overlay-chat-cloud/overlay-chat-cloud/server/index.js:129 | trailing spaces after text that does not end with a space are removed exactly |
| Text.TrimOfPadded | overlay-chat-cloud/overlay-chat-cloud/server/index.js:129 | spaces around non-empty unpadded text are removed and the text itself is returned |
| Text.Truncate | overlay-chat-cloud/overlay-chat-cloud/server/index.js:193 | `substring(0, n)` is a prefix of the input of length min(length, n) |
| Text.UpperChar | overlay-chat-cloud/overlay-chat-cloud/server/index.js:129 | lower-case ASCII letters map to their upper case and dotless i and long s to I and S; every other character is kept as it is |
| Text.ToUpper | overlay-chat-cloud/overlay-chat-cloud/server/index.js:129 | `toUpperCase()` is at least as long as its input and at most three times as long |
| Text.UpperOf | overlay-chat-cloud/overlay-chat-cloud/server/index.js:129 | sharp s and the ligatures U+FB00 to U+FB06 expand to their two- or three-letter upper case; every other character becomes exactly its `UpperChar` |
| Text.ToUpperAppend | overlay-chat-cloud/overlay-chat-cloud/server/index.js:129 | upper-casing distributes over concatenation, character by character |
| Text.ToUpperCharwise | overlay-chat-cloud/overlay-chat-cloud/server/index.js:129 | where no character expands, upper-casing keeps the length and maps the i-th character to the upper case of the i-th input character |
| RoomCodes.CodeFromDraws | overlay-chat-cloud/overlay-chat-cloud/server/index.js:34-41 | six draws give a six-character code over the alphabet |
| RoomCodes.GenerateRoomCode | overlay-chat-cloud/overlay-chat-cloud/server/index.js:34-41 | the loop appends, for each of the six draws, the alphabet symbol it selects; the result is a generated code |
| RoomCodes.AlphabetShape | overlay-chat-cloud/overlay-chat-cloud/server/index.js:35 | the alphabet has 32 distinct symbols, all upper-case letters or digits, without 0, O, 1 and I |
| RoomCodes.AlphabetRanks | overlay-chat-cloud/overlay-chat-cloud/server/index.js:35 | the alphabet is A to H, J to N, P to Z, then 2 to 9, in that order |
| RoomCodes.EveryCodeIsGenerated | overlay-chat-cloud/overlay-chat-cloud/server/index.js:34-41 | every six-character string over the alphabet can be generated by some draws |
| RoomCodes.NormalizeRoomCode | overlay-chat-cloud/overlay-chat-cloud/server/index.js:129 | the normalised code has no surrounding spaces and is at most three times as long as the input |
| RoomCodes.MatchesCodePattern | overlay-chat-cloud/overlay-chat-cloud/server/index.js:132 | `^[A-Z0-9]{6}$`: exactly six characters, each an ASCII capital letter or digit |
| RoomCodes.UpperOfPattern | overlay-chat-cloud/overlay-chat-cloud/server/index.js:129 | upper-casing leaves a string of upper-case letters and digits unchanged |
| RoomCodes.GeneratedCodeIsJoinable | overlay-chat-cloud/overlay-chat-cloud/server/index.js:129-132 | a generated code passes the `^[A-Z0-9]{6}$` check and normalises to itself |
| RoomCodes.LowerCaseCodeIsNormalized | overlay-chat-cloud/overlay-chat-cloud/server/index.js:129-132 | six letters or digits in any mix of cases, wrapped in spaces, normalise to their upper-case form, which passes the format check |
| RoomCodes.LowerCaseCodeJoins | overlay-chat-cloud/overlay-chat-cloud/server/index.js:129 | "k7m3qx" normalises to "K7M3QX" |
| RoomCodes.SharpSCodeIsNormalized | overlay-chat-cloud/overlay-chat-cloud/server/index.js:129-132 | three sharp s normalise to "SSSSSS", which passes the format check |
| RoomCodes.FirstFreeCode | overlay-chat-cloud/overlay-chat-cloud/server/index.js:108-111 | the code the retry loop settles on is not registered and is a generated code |
| RoomCodes.FirstFreeCodeIsFirst | overlay-chat-cloud/overlay-chat-cloud/server/index.js:108-111 | the chosen code is that of some attempt, and every earlier attempt's code was registered |
| Protocol.NormalizeName | overlay-chat-cloud/overlay-chat-cloud/server/index.js:193 | a stored name has 1 to 20 characters and no surrounding spaces |
| Protocol.NormalizeChatText | overlay-chat-cloud/overlay-chat-cloud/server/index.js:232 | chat text has at most 500 characters and no surrounding spaces |
| Protocol.BlankNameIsAnonymous | overlay-chat-cloud/overlay-chat-cloud/server/index.js:193 | a name of spaces only becomes "Anonymous" |
| Protocol.LongNameIsTruncated | overlay-chat-cloud/overlay-chat-cloud/server/index.js:193 | a name longer than 20 characters is cut to its first 20 before trimming |
| Protocol.ShortNameIsKept | overlay-chat-cloud/overlay-chat-cloud/server/index.js:193 | a short name without surrounding spaces is kept as typed |
| Protocol.ChatTextEmptyIffBlankPrefix | overlay-chat-cloud/overlay-chat-cloud/server/index.js:232-233 | a chat line is dropped exactly when its first 500 characters are all spaces |
| Protocol.RenameNotice | overlay-chat-cloud/overlay-chat-cloud/server/index.js:201-203 | the `setName` notice reads as a first join when the old name is "Anonymous", as a rename otherwise |
| Relay.Without | overlay-chat-cloud/overlay-chat-cloud/server/index.js:162 | `room.delete(ws)` keeps exactly the other members, in order, and shrinks a room that held the socket by one |
| Relay.With | overlay-chat-cloud/overlay-chat-cloud/server/index.js:173 | `room.set(ws, …)` adds the socket once, at the end, and keeps an existing member in place |
| Relay.Valid | overlay-chat-cloud/overlay-chat-cloud/server/index.js:18-19 | the registry invariant: every code is a generated one, no room is empty, a socket is a key of a room at most once, and every member is a known connection |
| Relay.Fanout | overlay-chat-cloud/overlay-chat-cloud/server/index.js:66-70 | one broadcast sends at most one frame per member |
| Relay.FanoutRecipients | overlay-chat-cloud/overlay-chat-cloud/server/index.js:66-70 | the frames of a broadcast go to exactly the open members other than the excluded one, each carrying the message |
| Relay.FanoutOnce | overlay-chat-cloud/overlay-chat-cloud/server/index.js:66-70 | when the members are distinct, no connection gets two frames of one broadcast |
| Relay.FanoutSpec | overlay-chat-cloud/overlay-chat-cloud/server/index.js:66-70 | one pass over the members sends to exactly the open members other than the excluded one, each once |
| Relay.Roster | overlay-chat-cloud/overlay-chat-cloud/server/index.js:78-81 | the roster has one entry per member |
| Relay.RosterSpec | overlay-chat-cloud/overlay-chat-cloud/server/index.js:78-81 | the roster's i-th entry is the i-th member's current name and colour |
| Relay.GetRoom | overlay-chat-cloud/overlay-chat-cloud/server/index.js:44-50 | the code is registered afterwards; a missing room is created empty, an existing one is left alone, others are untouched |
| Relay.AddMember | overlay-chat-cloud/overlay-chat-cloud/server/index.js:173 | the write goes into the room registered under the code; with no room there nothing changes |
| Relay.CleanupRoom | overlay-chat-cloud/overlay-chat-cloud/server/index.js:53-59 | the code is removed exactly when its room exists and is empty; everything else is unchanged |
| Relay.BroadcastToRoom | overlay-chat-cloud/overlay-chat-cloud/server/index.js:62-71 | a broadcast changes neither rooms nor connections and only appends frames |
| Relay.BroadcastUserList | overlay-chat-cloud/overlay-chat-cloud/server/index.js:74-88 | sending the roster changes neither rooms nor connections and only appends frames |
| Relay.Depart | overlay-chat-cloud/overlay-chat-cloud/server/index.js:160-168 | the departure steps do not touch any connection's state |
| Relay.LeavePrevious | overlay-chat-cloud/overlay-chat-cloud/server/index.js:160-169 | leaving the current room does not touch any connection's state |
| Relay.Connect | overlay-chat-cloud/overlay-chat-cloud/server/index.js:91-96 | a new connection adds exactly its own record (no room, the default name and colour, open) and leaves rooms and frames alone |
| Relay.CreateRoom | overlay-chat-cloud/overlay-chat-cloud/server/index.js:106-126 | `createRoom` keeps the set of connections, points `currentRoom` at the fresh code, registers the creator under it and sends at least one frame |
| Relay.JoinRoom | overlay-chat-cloud/overlay-chat-cloud/server/index.js:128-158 | `joinRoom` keeps the set of connections; without a code it changes nothing, and with one it always answers |
| Relay.Admit | overlay-chat-cloud/overlay-chat-cloud/server/index.js:160-189 | the admitted branch keeps the set of connections, points `currentRoom` at the code, and sends the confirmation to the joiner as the first frame after the leave step |
| Relay.SetName | overlay-chat-cloud/overlay-chat-cloud/server/index.js:191-210 | `setName` stores the normalised name, keeps the set of connections and only appends frames; without a name it changes nothing |
| Relay.SetColor | overlay-chat-cloud/overlay-chat-cloud/server/index.js:212-221 | `setColor` stores the colour and keeps the name and the set of connections; it only appends frames |
| Relay.ChatMessage | overlay-chat-cloud/overlay-chat-cloud/server/index.js:223-255 | `chat` changes neither rooms nor connections and only appends frames |
| Relay.LeaveRoom | overlay-chat-cloud/overlay-chat-cloud/server/index.js:257-278 | `leaveRoom` either changes nothing or clears `currentRoom`; it keeps the set of connections and only appends frames |
| Relay.Close | overlay-chat-cloud/overlay-chat-cloud/server/index.js:289-305 | `close` marks the socket closed, keeps the set of connections and only appends frames |
| Relay.Step | overlay-chat-cloud/overlay-chat-cloud/server/index.js:101-286 | whatever frame arrives, the set of connections is kept and frames are only appended |
| Relay.ShutdownNotices | overlay-chat-cloud/overlay-chat-cloud/server/index.js:325-330 | the shutdown pass sends nothing but the shutdown notice |
| Relay.ShutdownNoticesStep | overlay-chat-cloud/overlay-chat-cloud/server/index.js:325-330 | visiting one more room appends exactly that room's broadcast of the notice |
| Relay.ShutdownBroadcastExtends | overlay-chat-cloud/overlay-chat-cloud/server/index.js:325-330 | broadcasting the notice to one more room extends the frames sent so far by that room's notices |
| RelayProperties.BroadcastToRoomSpec | overlay-chat-cloud/overlay-chat-cloud/server/index.js:62-71 | `broadcastToRoom` appends the message for exactly the open members other than the excluded socket, once each, and nothing for an absent room |
| RelayProperties.UserListSpec | overlay-chat-cloud/overlay-chat-cloud/server/index.js:74-88 | every open member, and nobody else, gets a roster listing the current name and colour of every member in member order; in a room without duplicate entries no connection gets two |
| RelayProperties.DepartSpec | overlay-chat-cloud/overlay-chat-cloud/server/index.js:160-168 | leaving removes only the leaver and deletes the room exactly when nobody is left; exactly the remaining open members get the notice and the roster of those who remain, nobody gets the notice twice, and nothing else is sent |
| RelayProperties.CleanupRoomIdempotent | overlay-chat-cloud/overlay-chat-cloud/server/index.js:53-59 | cleaning up twice equals cleaning up once |
| RelayProperties.DepartKeepsValid | overlay-chat-cloud/overlay-chat-cloud/server/index.js:160-168 | the departure steps keep the registry invariant |
| RelayProperties.LeavePreviousKeepsValid | overlay-chat-cloud/overlay-chat-cloud/server/index.js:160-169 | leaving the previous room keeps the registry invariant |
| RelayProperties.AddMemberKeepsValid | overlay-chat-cloud/overlay-chat-cloud/server/index.js:173 | adding a known connection keeps the registry invariant |
| RelayProperties.ConnectKeepsValid | overlay-chat-cloud/overlay-chat-cloud/server/index.js:91-96 | a new connection keeps the invariant, leaves rooms alone and adds exactly its own record |
| RelayProperties.CreateRoomKeepsValid | overlay-chat-cloud/overlay-chat-cloud/server/index.js:106-126 | `createRoom` with a free generated code keeps the invariant and the set of connections |
| RelayProperties.JoinRoomKeepsValid | overlay-chat-cloud/overlay-chat-cloud/server/index.js:128-189 | `joinRoom` keeps the invariant and the set of connections |
| RelayProperties.AdmitKeepsValid | overlay-chat-cloud/overlay-chat-cloud/server/index.js:160-189 | the admitted branch keeps the invariant |
| RelayProperties.SetNameKeepsValid | overlay-chat-cloud/overlay-chat-cloud/server/index.js:191-210 | `setName` keeps the invariant and the set of connections |
| RelayProperties.SetColorKeepsValid | overlay-chat-cloud/overlay-chat-cloud/server/index.js:212-221 | `setColor` keeps the invariant and the set of connections |
| RelayProperties.ChatKeepsValid | overlay-chat-cloud/overlay-chat-cloud/server/index.js:223-255 | `chat` keeps the invariant and changes neither rooms nor connections |
| RelayProperties.LeaveRoomKeepsValid | overlay-chat-cloud/overlay-chat-cloud/server/index.js:257-278 | `leaveRoom` keeps the invariant and the set of connections |
| RelayProperties.CloseKeepsValid | overlay-chat-cloud/overlay-chat-cloud/server/index.js:289-305 | the `close` handler keeps the invariant and the set of connections |
| RelayProperties.StepKeepsValid | overlay-chat-cloud/overlay-chat-cloud/server/index.js:101-286 | whatever frame arrives, the invariant and the set of connections are kept |
| RelayProperties.CreateRoomSpec | overlay-chat-cloud/overlay-chat-cloud/server/index.js:113-124 | the fresh code maps to a room holding exactly the creator; `currentRoom` is set; the creator gets the code and, if open, a one-entry roster; other rooms are untouched |
| RelayProperties.JoinRoomRejects | overlay-chat-cloud/overlay-chat-cloud/server/index.js:129-158 | a bad format, an unknown room or a full room gives exactly one error with the matching text; rooms and connections are unchanged |
| RelayProperties.JoinRoomIsAdmit | overlay-chat-cloud/overlay-chat-cloud/server/index.js:128-158 | a code that passes all three checks leads to the admitted branch |
| RelayProperties.LeavePreviousRooms | overlay-chat-cloud/overlay-chat-cloud/server/index.js:160-169 | the leave step only changes the previous room, which loses exactly the leaver; it deletes the target room exactly when that was the joiner's own room and the joiner was its only member |
| RelayProperties.AdmitRooms | overlay-chat-cloud/overlay-chat-cloud/server/index.js:160-173 | after admission the target room holds exactly its members after the leave step with the joiner added at the end (`room.set`), and at most 5; unrelated rooms are unchanged |
| RelayProperties.LeavePreviousOutbox | overlay-chat-cloud/overlay-chat-cloud/server/index.js:160-169 | the leave step sends only the leave notice and rosters |
| RelayProperties.NoticeThenRoster | overlay-chat-cloud/overlay-chat-cloud/server/index.js:181-187 | a notice followed by the roster reaches exactly the open non-excluded members with the notice and sends nothing else but rosters |
| RelayProperties.NoticeThenRosterRecipients | overlay-chat-cloud/overlay-chat-cloud/server/index.js:181-187 | after a notice, the room's roster reaches exactly its open members |
| RelayProperties.NoticeThenRosterOnce | overlay-chat-cloud/overlay-chat-cloud/server/index.js:181-187 | when the room has no duplicate members, a notice followed by the roster sends each connection at most one roster |
| RelayProperties.RostersAfterOthers | overlay-chat-cloud/overlay-chat-cloud/server/index.js:181-187 | frames without a roster followed by frames to distinct connections send each connection at most one roster |
| RelayProperties.AdmitOutbox | overlay-chat-cloud/overlay-chat-cloud/server/index.js:171-187 | the joiner is confirmed first, then exactly the other open members get the join notice, then rosters; in a room without duplicate entries nobody gets the join notice twice |
| RelayProperties.AdmitRoster | overlay-chat-cloud/overlay-chat-cloud/server/index.js:186-187 | the roster an admitted join ends with reaches exactly the open members of the room as it then stands, the joiner included |
| RelayProperties.JoinRoomAdmits | overlay-chat-cloud/overlay-chat-cloud/server/index.js:152-187 | an admitted join sets `currentRoom`, makes the room its previous members plus the joiner and never more than 5, confirms to the joiner and sends no error |
| RelayProperties.LeavePreviousKeepsNoDup | overlay-chat-cloud/overlay-chat-cloud/server/index.js:160-168 | the leave step of a join keeps every registered room free of duplicate entries |
| RelayProperties.AdmitNoticeOnce | overlay-chat-cloud/overlay-chat-cloud/server/index.js:171-187 | an admitted join into a room without duplicate entries sends each connection the join notice at most once |
| RelayProperties.NoticesBeforeOthers | overlay-chat-cloud/overlay-chat-cloud/server/index.js:160-168 | frames that send a notice at most once to each connection, followed by frames without it, still send it at most once to each |
| RelayProperties.NoticesAfterOthers | overlay-chat-cloud/overlay-chat-cloud/server/index.js:171-187 | frames without a notice, followed by frames that send it at most once to each connection, still send it at most once to each |
| RelayProperties.AdmitConfirms | overlay-chat-cloud/overlay-chat-cloud/server/index.js:171-187 | the admitted branch confirms to the joiner and sends no error |
| RelayProperties.JoinRoomLeavesPrevious | overlay-chat-cloud/overlay-chat-cloud/server/index.js:160-169 | joining another room first removes the joiner from the previous room and deletes it if empty; exactly its remaining open members get the leave notice, each once, and the roster of those who remain |
| RelayProperties.RejoinAsSoleMemberDropsRoom | overlay-chat-cloud/overlay-chat-cloud/server/index.js:160-173 | re-joining one's own room as its only member leaves the code unregistered while `currentRoom` still names it |
| RelayProperties.SetNameSpec | overlay-chat-cloud/overlay-chat-cloud/server/index.js:192-205 | the stored name is the normalised one, the colour is kept, and outside a room, or when `currentRoom` names a room that is no longer registered, nothing else happens |
| RelayProperties.SetNameNotice | overlay-chat-cloud/overlay-chat-cloud/server/index.js:195-205 | in a room, exactly its open members, the sender included, get the notice, which reads as a first join or a rename according to the old name; every other frame sent is a roster |
| RelayProperties.SetNameRoster | overlay-chat-cloud/overlay-chat-cloud/server/index.js:196-205 | after a rename exactly the open members of the room get one roster each, listing every member in order with the sender under its new name and its colour, everyone else as before |
| RelayProperties.SetNameCanExceedCap | overlay-chat-cloud/overlay-chat-cloud/server/index.js:196-197 | a `setName` from a non-member whose `currentRoom` names a full registered room makes it hold 6 |
| RelayProperties.SetColorSpec | overlay-chat-cloud/overlay-chat-cloud/server/index.js:212-218 | the colour is stored and the name kept; outside a registered room nothing else happens |
| RelayProperties.SetColorRoster | overlay-chat-cloud/overlay-chat-cloud/server/index.js:213-219 | from a member of its room, the room is unchanged and exactly its open members get one roster each, listing the sender with the new colour and everyone else as before |
| RelayProperties.ChatOutsideRoom | overlay-chat-cloud/overlay-chat-cloud/server/index.js:224-230 | `chat` outside a room sends exactly one error to the sender and changes nothing else |
| RelayProperties.ChatInRoom | overlay-chat-cloud/overlay-chat-cloud/server/index.js:232-251 | an empty text sends nothing; otherwise the identical chat event goes to exactly the open members of the room, once each |
| RelayProperties.ChatEchoesToSender | overlay-chat-cloud/overlay-chat-cloud/server/index.js:243-251 | an open sender that is a member receives its own chat line |
| RelayProperties.LeaveRoomOutside | overlay-chat-cloud/overlay-chat-cloud/server/index.js:257-258 | `leaveRoom` outside a registered room changes nothing |
| RelayProperties.LeaveRoomSpec | overlay-chat-cloud/overlay-chat-cloud/server/index.js:257-278 | `leaveRoom` removes only the leaver and deletes the room when empty; exactly the remaining open members get the notice, each once, and the roster of those who remain; the confirmation comes last, nothing else is sent, and `currentRoom` is cleared |
| RelayProperties.CloseSpec | overlay-chat-cloud/overlay-chat-cloud/server/index.js:289-305 | `close` marks the socket closed and removes only it from its registered room, deleting the room when empty; exactly the remaining open members get the notice, each once, and the roster of those who remain, and nothing else is sent |
| RelayProperties.RosterOfSameUsers | overlay-chat-cloud/overlay-chat-cloud/server/index.js:78-81 | the roster depends only on the members' current names and colours |
| RelayProperties.ShutdownNoticesSpec | overlay-chat-cloud/overlay-chat-cloud/server/index.js:325-330 | the shutdown pass sends the notice to exactly the open members of the visited rooms |
| RelayProperties.ShutdownReachesEveryMember | overlay-chat-cloud/overlay-chat-cloud/server/index.js:325-330 | visiting every registered room reaches exactly the open connections that are a member of some room |
| RelayProperties.SharpSCodeJoins | overlay-chat-cloud/overlay-chat-cloud/server/index.js:128-158 | a join typed as three sharp s is admitted into a registered, non-full room SSSSSS |
| RelayProperties.ExampleCreate | overlay-chat-cloud/overlay-chat-cloud/server/index.js:106-126 | a fresh connection creating K7M3QX gets the code and a one-entry roster |
| RelayProperties.ExampleJoin | overlay-chat-cloud/overlay-chat-cloud/server/index.js:128-189 | a second connection joining with any spelling that normalises to K7M3QX, such as "k7m3qx", is confirmed, the creator alone gets the join notice, and both get a two-entry roster |
| RelayProperties.ExampleAdmit | overlay-chat-cloud/overlay-chat-cloud/server/index.js:160-187 | the admitted branch of that join produces exactly that state |
| RelayProperties.ExampleFanouts | overlay-chat-cloud/overlay-chat-cloud/server/index.js:62-71 | in that room a broadcast reaches both members, or only the creator when the joiner is excluded |
| RelayProperties.ExampleChat | overlay-chat-cloud/overlay-chat-cloud/server/index.js:223-255 | "hi" from the joiner reaches both members with the same name, colour, text and timestamp |
| Server.RelayServer.constructor | overlay-chat-cloud/overlay-chat-cloud/server/index.js:19 | the server starts with no rooms, no connections and nothing sent |
| Server.RelayServer.Connect | overlay-chat-cloud/overlay-chat-cloud/server/index.js:91-96 | a new socket gets a fresh identity, no room, the default name and colour |
| Server.RelayServer.GetRoom | overlay-chat-cloud/overlay-chat-cloud/server/index.js:44-50 | returns the room under the code, creating it empty when absent |
| Server.RelayServer.SetMember | overlay-chat-cloud/overlay-chat-cloud/server/index.js:173 | `room.set` on the registered room |
| Server.RelayServer.CleanupRoom | overlay-chat-cloud/overlay-chat-cloud/server/index.js:53-59 | removes the room exactly when it is empty |
| Server.RelayServer.BroadcastToRoom | overlay-chat-cloud/overlay-chat-cloud/server/index.js:62-71 | the `forEach` loop sends exactly the fan-out the specification defines |
| Server.RelayServer.BroadcastUserList | overlay-chat-cloud/overlay-chat-cloud/server/index.js:74-88 | the roster loop builds the specified roster and broadcasts it |
| Server.RelayServer.Depart | overlay-chat-cloud/overlay-chat-cloud/server/index.js:160-168 | delete, notify, roster, cleanup, as specified |
| Server.RelayServer.PickCode | overlay-chat-cloud/overlay-chat-cloud/server/index.js:108-111 | the retry loop returns an unregistered generated code, the first free one among the attempts |
| Server.RelayServer.CreateRoom | overlay-chat-cloud/overlay-chat-cloud/server/index.js:106-126 | `createRoom` reaches the specified state with the first free code and keeps the invariant |
| Server.RelayServer.JoinRoom | overlay-chat-cloud/overlay-chat-cloud/server/index.js:128-158 | `joinRoom` reaches the specified state and keeps the invariant |
| Server.RelayServer.Admit | overlay-chat-cloud/overlay-chat-cloud/server/index.js:160-189 | the admitted branch reaches the specified state |
| Server.RelayServer.SetName | overlay-chat-cloud/overlay-chat-cloud/server/index.js:191-210 | `setName` reaches the specified state and keeps the invariant |
| Server.RelayServer.Announce | overlay-chat-cloud/overlay-chat-cloud/server/index.js:195-206 | the in-room part of `setName` re-sets the entry, then sends notice and roster |
| Server.RelayServer.SetColor | overlay-chat-cloud/overlay-chat-cloud/server/index.js:212-221 | `setColor` reaches the specified state and keeps the invariant |
| Server.RelayServer.Chat | overlay-chat-cloud/overlay-chat-cloud/server/index.js:223-255 | `chat` reaches the specified state and keeps the invariant |
| Server.RelayServer.LeaveRoom | overlay-chat-cloud/overlay-chat-cloud/server/index.js:257-278 | `leaveRoom` reaches the specified state and keeps the invariant |
| Server.RelayServer.Close | overlay-chat-cloud/overlay-chat-cloud/server/index.js:289-305 | the `close` handler reaches the specified state and keeps the invariant |
| Server.RelayServer.HandleMessage | overlay-chat-cloud/overlay-chat-cloud/server/index.js:101-286 | dispatching any frame reaches the state of the specified step and keeps the invariant |
| Server.RelayServer.Shutdown | overlay-chat-cloud/overlay-chat-cloud/server/index.js:322-330 | every registered room is visited once, and the frames sent are the shutdown notices of the rooms in visiting order |

## Left out

- The `ws` transport and WebSocket framing, `JSON.parse` and `JSON.stringify`, and all console output are not modelled. A frame is a `Command` value and a sent frame a `Msg` value.
- A frame that does not parse, or whose `type` is unknown, is logged and ignored. Both become commands that change nothing.
- A missing or non-string `roomCode`, `name` or `text` makes the handler throw, and the throw is caught. This is modelled as an absent field, meaning no change and no output. Other exceptions inside a handler, such as a failing `ws.send`, are not modelled.
- `setColor` stores whatever JSON value arrives. The model stores a string and does not distinguish a missing colour.
- `Math.random()` is replaced by explicit draws below 32. Its floating point is not modelled.
- `createRoom` requires that one of the supplied attempts gives a free code. The source loop has no bound and ends only when such a draw comes.
- `Date.now()` is the parameter `now`.
- Text.UpperChar: keeps as it is every character whose upper case contains a character outside ASCII, such as é (É), Greek and Cyrillic letters. The format check decides the same for either form, because neither is in `[A-Z0-9]`. Every character whose upper case consists of ASCII letters only is modelled: ß and the ligatures U+FB00 to U+FB06 in `Text.UpperOf`, and dotless i and long s in `UpperChar`.
- String lengths count Unicode scalar values, while JavaScript counts UTF-16 code units. `substring(0, 20)` and `substring(0, 500)` therefore differ for text outside the Basic Multilingual Plane, where JavaScript can split a surrogate pair.
- A socket's `readyState` is a flag that turns false only when the `close` handler runs. The CLOSING state before that event is not modelled.
- Relay.Step and Server.RelayServer.HandleMessage: do not require the connection to be open, and Relay.Close and Server.RelayServer.Close may run twice. `ws` emits no events after `close`, so these cases cannot occur in the source. Every property proved about them holds for every connection, open or not.
- A socket object is represented by a number handed out in connection order.
- After a room is deleted, a detached room `Map` is modelled only through its observable effect: a write into a room whose code is no longer registered is lost.
- The connection `error` handler only logs (index.js:308-310). It is not modelled.
- The statistics timer (index.js:314-319), `wss.close`, `process.exit` and the SIGTERM re-emit (index.js:332-340) are not modelled.
- Server.RelayServer.Shutdown: the iteration order of the registry `Map` is not modelled. The method reports the order it chose as a ghost result, and the frames are stated for that order.
- Server.RelayServer.Chat: the source's own member loop for chat (index.js:244-251) is the same pass as `broadcastToRoom` without exclusion, and the method performs it by calling `BroadcastToRoom`.
- Relay.Roster: a member without a connection record would be listed as the default user. `Relay.Valid` rules this case out.
- Relay.Depart and Relay.LeavePrevious only state that connections are unchanged. Their effect on rooms and frames is stated by `DepartSpec`, `LeavePreviousRooms` and `LeavePreviousOutbox`.
- The client application (renderer, Electron main process, preload bridge and configuration) is not part of this model.
