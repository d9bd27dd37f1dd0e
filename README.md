# Chat server and client: a Dafny model

The system is a small TCP chat.

`server.py` keeps one global list of client sockets, `clients`. The accept loop appends each new connection to it. One thread per connection then receives messages and broadcasts each one to the other registered sockets that the broadcast loop reaches: the socket right behind one whose send failed is skipped (see Findings). `broadcast` removes a socket whose `send` raises. The connection thread removes its own socket when the peer closes or a read fails.

`client.py` is a Tkinter client:
- it strips the entry text and sends it under the user's name;
- it sends direct messages tagged with the recipient;
- it keeps a set of co-admin names;
- it hands received messages from a receive thread to the window through a queue;
- it replaces emoji codes such as `:fire:` before showing a line.

The model has five modules.

- `Stream` models a receive loop. A socket `recv` yields data or raises. `Delivered` is the list of messages that a "receive until empty chunk or error" loop acts on. Both the server's connection loop and the client's receive thread have this shape.
- `ClientList` models the registry as a sequence of distinct client ids.
  - `Fanout` is a pure specification of one pass of the broadcast loop as written. Python's list iterator and `list.remove` step over the successor of a removed client, and `Fanout` includes that skip.
  - The module also holds the lemmas about `Fanout`: who is tried, who is delivered to, who stays registered, and the skip itself.
- `Server` is a `Registry` class whose `clients` field the methods update in place.
  - `Accept`, `Broadcast` (index plus remove-first, as the code does it), `BroadcastSnapshot` (iterating a copy) and `Disconnect`.
  - `Session` is the `handle_client` loop, relaying through `Broadcast` as the code does, and `Listen` is the accept loop.
  - Every registry operation runs under the server's lock, so each method is one atomic step.
- `Text` models Python's `str.replace` (left to right, non-overlapping) and `str.strip`, using Python's whitespace set.
  - It proves when a replacement leaves no occurrence of a pattern behind.
  - It proves what stripping removes.
- `Client` is the `ChatClient` class. Its fields are:
  - the entry text;
  - the lines displayed;
  - the payloads sent;
  - the `admins` set;
  - the message queue.

  Its methods are `show_message`, `send_message`, `send_direct_message`, `assign_coadmin`, `receive_messages` and `update_chat_window`. Each method is proved against pure functions: `Emojified`, `OutgoingChat`, `OutgoingDirect`, `Promote`, `Delivered` and `ShownAll`.

Some effects are modelled as inputs:
- whether a `send` raises is a set of failing clients, or a boolean for the client;
- what `recv` returns is a finite sequence of `Recv` outcomes;
- the sockets `accept` returns are a sequence of fresh ids;
- the answer of the co-admin dialog is an `Option`.

## Model

| member | source | states |
|---|---|---|
| Server.Registry.constructor | server.py:17 | the client list starts empty |
| Server.Registry.Accept | server.py:71-73 | an accepted socket is appended at the end, the others keep their order, and no socket is registered twice |
| Server.Listen | server.py:70-75 | the accept loop registers the incoming sockets in arrival order after those already registered |
| Server.Registry.Broadcast | server.py:28-34 | the iterate-and-remove loop produces exactly the pass `Fanout` describes (who is tried, who is delivered to, and the list left behind), and the list stays free of duplicates |
| ClientList.RemoveFirst | server.py:34 | `list.remove` shortens the list by one and introduces no new client |
| ClientList.RemoveFirstAt | server.py:29-34 | removing the client at the loop's index leaves the clients before and after it, in order |
| ClientList.RemoveFirstIsDrop | server.py:34 | on a duplicate-free list, removing the first occurrence removes the client entirely |
| ClientList.FanoutBasics | server.py:28-34 | the sender is never sent its own message, only registered clients are tried or kept, and a message is delivered to exactly the tried clients whose send does not raise |
| ClientList.FanoutAtMostOnce | server.py:29-32 | no client is sent the message twice in one broadcast |
| ClientList.FanoutRemovesExactlyFailed | server.py:33-34 | after a broadcast the list is the old list minus exactly the clients whose send raised, in the old order, and the sender stays registered |
| ClientList.FanoutWithoutFailures | server.py:28-32 | with no failing send, every client but the sender is sent the message once, in list order, and the list is unchanged |
| ClientList.Fanout | server.py:29-34 | defines one pass of the loop as written: the sender is passed over, a client whose send succeeds is kept, a failed one is removed and the client behind it is stepped over |
| ClientList.FanoutCount | server.py:33-34 | a pass shrinks the list by exactly the number of failed sends |
| ClientList.FanoutSkipsSuccessor | server.py:29-34 | the client right behind any tried client whose send failed is neither sent the message nor removed |
| ClientList.ScenarioSkipsThird | server.py:28-34 | with clients 1, 2, 3, where 1 sends and 2 fails, 2 is removed and 3 is never tried |
| Server.Registry.BroadcastSnapshot | server.py:26 | broadcasting over a copy of the list tries every client but the sender once, in order, delivers to those whose send succeeds, and removes exactly the failed ones |
| ClientList.SnapshotFan | server.py:20-27 | the intended pass: a client is tried exactly when it is registered and not the sender, reached exactly when also its send succeeds, and kept exactly when it is the sender or its send succeeds |
| ClientList.FanoutIsSnapshotWithoutFailures | server.py:28-34 | when no send fails, the loop as written and the intended pass coincide |
| Server.Registry.Disconnect | server.py:54-56 | the cleanup removes the socket if it is registered, keeps the order of the rest, and leaves the socket unregistered |
| Server.DisconnectIdempotent | server.py:54-56 | cleaning up twice equals cleaning up once, and cleaning up an unregistered socket changes nothing |
| ClientList.DropTwice | server.py:55-56 | removing the same clients a second time changes nothing |
| Server.Session | server.py:44-56 | a connection relays exactly the received chunks up to the first empty chunk or read error, in order, each as one broadcast (`Fanout`, skip included) over the list the earlier broadcasts left; then it deregisters its own socket |
| Server.SessionFansAt | server.py:46-51 | the k-th relayed message is broadcast, by the loop as written, over the list as the k broadcasts before it left it |
| Server.BroadcastsKeepSender | server.py:51 | a connection's own broadcasts, as written, never remove its socket and keep the list free of duplicates, so only its cleanup deregisters it |
| Stream.Delivered | server.py:46-53 | the messages acted on are the non-empty received chunks before the first empty chunk or error, in order |
| Stream.DeliveredAll | server.py:46-51 | a stream that never closes or fails is relayed in full |
| Stream.DeliveredStopsAtEnd | server.py:49-53 | nothing after an empty chunk or a read error is ever acted on |
| Client.ChatClient.ReceiveMessages | client.py:84-91 | the receive thread queues exactly the delivered messages, in arrival order, after what was already queued, and touches nothing else |
| Client.ChatClient.UpdateChatWindow | client.py:176-181 | the window empties the queue and shows every queued message, oldest first, emoji substituted |
| Client.ShownAll | client.py:176-179 | the lines shown correspond one to one, in order, to the queued messages |
| Client.ChatClient.ShowMessage | client.py:111-123 | one line is added to the chat area: the message with every emoji code replaced |
| Client.ChatClient.Emojify | client.py:118-119 | the loop over the map replaces each code in turn and yields `Emojified` |
| Client.EmojifiedHasNoCodes | client.py:23-29 | no emoji code is ever left in a displayed line |
| Client.EmojifiedPlain | client.py:118-119 | a message with no emoji code is displayed unchanged |
| Client.EmojifiedOne | client.py:23-29 | a code with no other colon around it is displayed as its own emoji from the map, and the rest of the message is unchanged |
| Client.Emojified | client.py:118-119 | defines the displayed text: each code of the map replaced in the map's order |
| Client.CodesColonDelimited | client.py:23-29 | every code is a word between two colons, and no two codes are equal |
| Client.CodeOnlyAtItself | client.py:23-29 | one code between colon-free text holds no other code |
| Client.EmojiMapSeparated | client.py:23-29 | every code and substitute is non-empty, and no substitute shares a character with any code |
| Client.ErrorLinePlain | client.py:107 | an error line whose text has no colon is displayed exactly as written |
| Text.Replace | client.py:119 | defines `str.replace`, left to right and non-overlapping; replacing a pattern by itself changes nothing |
| Text.ReplaceAfterPlain | client.py:119 | text in front of which the pattern cannot start passes through `replace` unchanged |
| Text.ReplaceAtStart | client.py:119 | a text starting with the pattern has that occurrence replaced |
| Text.ReplaceUnchanged | client.py:119 | `replace` leaves a string without the pattern unchanged |
| Text.ReplaceLeavesNo | client.py:119 | after `replace`, neither the pattern nor any text that was absent and shares no character with the substitute occurs |
| Text.ReplaceEachRemoves | client.py:118-119 | after replacing every code of a separated table in turn, no code occurs |
| Text.ReplaceEachUnchanged | client.py:118-119 | a text containing no code passes through the table unchanged |
| Client.ChatClient.SendMessage | client.py:100-109 | a blank entry sends and shows nothing; otherwise the payload is sent and shown, or only the error line is shown when the send fails; the entry is cleared in every case |
| Client.OutgoingChat | client.py:100-102 | defines the chat payload: `name: text` with the text stripped, none for a blank entry |
| Client.OutgoingChatSent | client.py:100-101 | a chat message is sent exactly when the entry holds a non-whitespace character |
| Client.OutgoingChatPayload | client.py:102 | the payload is the name, `: `, and the stripped entry text, which neither starts nor ends with whitespace |
| Text.Strip | client.py:100 | defines `str.strip`: leading and then trailing whitespace removed |
| Text.IsSpace | client.py:100 | defines the characters Python's `str.strip` removes |
| Text.StripEmpty | client.py:100-101 | stripping yields nothing exactly when every character is whitespace |
| Text.StripSlice | client.py:100 | the stripped text is a contiguous slice of the entry |
| Text.StripRemovesSpace | client.py:100 | only whitespace is removed, from both ends |
| Text.StripEnds | client.py:100 | the stripped text neither starts nor ends with whitespace |
| Text.StripIdempotent | client.py:100 | stripping twice equals stripping once |
| Client.ChatClient.SendDirectMessage | client.py:163-169 | an empty recipient sends and shows nothing; otherwise the tagged payload is sent and shown, or the error line is shown when the send fails |
| Client.OutgoingDirect | client.py:163-164 | a direct message is sent exactly when the recipient is non-empty |
| Client.OutgoingDirectPayload | client.py:164 | the payload is the sender's name, ` (to @`, the recipient, `): ` and the message, unchanged |
| Client.ChatClient.AssignCoadmin | client.py:149-153 | a non-empty answer is added to the admins, sent the promotion notice and announced locally; a cancelled or empty answer changes nothing |
| Client.Promote | client.py:150-151 | a name is a co-admin afterwards exactly when it was before or it is the non-empty answer |
| Client.PromoteTwice | client.py:150-151 | promoting the same name twice equals promoting it once |
| Client.PromotionNotice | client.py:152 | defines the direct message a new co-admin is sent |
| Client.PromotionLine | client.py:153 | defines the line the promoting client shows |
| Client.ErrorLine | client.py:107 | defines the error lines shown when a send fails, here and at client.py:169 |
| Client.ChatClient.constructor | client.py:59-61 | the queue, the admins and the display start empty |

## Left out

- Sockets, threads and the server lock are not modelled. Every send outcome is an input, a `recv` is an element of an input sequence, and each lock-protected step is one atomic method.
- Interleavings of concurrent sessions are not modelled. `Session` runs one connection's loop against the registry on its own.
- The `while True` loops of the server and the client's `while self.running` loop are modelled over finite input sequences. Running out of input ends the loop like end of stream. `close` and the `running` flag are not modelled.
- UTF-8 encoding and decoding are not modelled: the client works on characters and the server on raw bytes. A decode error in the receive thread is an ordinary `ReadError`. The 1024-byte `recv` bound and message framing are not modelled either.
- `send` is taken as all or nothing. A send that raises sends nothing.
- The Tkinter widgets are not modelled. The entry field is a string field, the chat area is a sequence of lines without the trailing newline, and the scrolling and URL and @mention highlighting in `show_message` (client.py:121-142) are not modelled because they only affect presentation.
- The early exits of the client constructor (client.py:63-73) are not modelled: an empty name closes the window, and a failed connect shows an error. The constructor takes the name as given.
- The dialog of `assign_coadmin` is not modelled. Its answer is a parameter.
- `print` logging and `KeyboardInterrupt` shutdown in the server are not modelled.
- Client.ChatClient.SendMessage: computes the payload, then clears the entry, then sends. The source sends first and clears afterwards. Run sequentially, both give the same state.

## Findings

| source | as written | input that shows it | evidently intended | confidence | as-written member | corrected member |
|---|---|---|---|---|---|---|
| server.py:29-34 | `broadcast` removes a failed client from `clients` while iterating over that same list, so the iterator steps over the client right behind it | clients [1, 2, 3], sender 1, send to 2 raises: 2 is removed, 3 is never sent the message | every client other than the sender is tried once, and only failed clients are removed (the function's documentation says it sends to all clients except the sender) | high; not executed | ClientList.ScenarioSkipsThird | Server.Registry.BroadcastSnapshot |
