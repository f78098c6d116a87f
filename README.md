# Chat server presence and routing, modelled in Dafny

This project models the socket handlers of a one-to-one chat server
(`server/server.js`, lines 53-186). A client connects over socket.io and
`register`s its user id. It may `open_chat` with a peer and `send_message`s.
It reads back its conversation list (`get_user_conversations`) and the
transcript with one peer (`get_message_history`). The handlers share two
in-memory dictionaries:

- `users`: user id to socket id. This is the presence registry.
- `activeChats`: user id to the peer whose chat is open. This is the focus.

They also write two database tables:

- `messages`: an append-only log of sender, receiver, text and `sent_at`.
- `user_conversations`: one row per directed pair (user, peer) with the last
  message, its timestamp and the user's unread count.

Each handler is one atomic step of a `ChatServer` object (`server.dfy`). What
a handler pushes to a socket is appended to an outbox of `Emit(socket, event)`
records.

Layout, one module per file:

- `domain.dfy`: ids, socket ids, timestamps, `Option`.
- `sorting.dfy`: a stable insertion sort by an integer key. It stands for
  SQL `ORDER BY`.
- `presence.dfy`: the `users` dictionary. It is a list of bindings kept in
  ascending user order, which is the order in which a JavaScript object
  enumerates integer keys. `Registry` reads that list as a map.
- `store.dfy`: the two tables and the upserts of the send handler. `Table`
  reads the summary rows as a map keyed by the pair.
- `queries.dfy`: the two read queries.
- `routing.dfy`: the events and the pushes of a successful send.
- `server.dfy`: the handlers as methods of `ChatServer`.

The methods tie the new state to these functions. The properties are proved
about the functions, as their `ensures` clauses and as lemmas. Every method's
`modifies` clause names only the fields that handler writes. That is how
"nothing else changes" is stated. For example, `Register` may change only
`users`, and the two read handlers may change only the outbox.

Modelling choices:

- User ids are natural numbers. Accounts have integer serial ids.
- A socket id is a non-empty string. So the server's truthiness test
  `if (receiverSocketId)` means the same as "the user is in `users`".
- `sent_at` is a parameter to `SendMessage`: the timestamp the database
  assigns to the new row.
- A failing query is an input. `SendFault` says which of the three awaited
  queries of `send_message` throws. A boolean says whether a read query
  throws. The handlers catch every error and only log it. So a fault ends
  the handler where it happens, and the earlier steps stay done.
- The accounts table is a map from id to email. It provides
  `connected_email` and the inner join of the conversations query.

## Model

| member | source | states |
|---|---|---|
| `Presence.Lookup` | server/server.js:95-96 | `users[u]` is a socket exactly when `u` is registered, and it is the socket the registry maps `u` to |
| `Presence.Assign` | server/server.js:59 | the registry afterwards is the old one with `u` mapped to the new socket, replacing any earlier binding; keys stay in enumeration order |
| `Presence.FirstHolder` | server/server.js:177-178 | the loop's match is a binding to the closing socket with no binding to it earlier in enumeration order; no match means no user is bound to that socket |
| `Presence.UnbindRegistry` | server/server.js:176-183 | disconnecting a socket deletes at most one registry entry: the entry of the smallest user id bound to that socket. Every other entry is unchanged. With no such user, nothing changes |
| `Presence.SupersededBindingSurvives` | server/server.js:176-183 | after `register(u, c1)` and `register(u, c2)`, disconnecting `c1` leaves `u` bound to `c2` |
| `Presence.SecondHolderStaysBound` | server/server.js:177-181 | because the loop breaks at its first match, a second user bound to the same socket stays bound to it after the disconnect |
| `Store.Upsert` | server/server.js:82-92 | INSERT ... ON CONFLICT: the pair gets the new message and timestamp. On a new row the count is 1 for the receiver form and 0 for the sender form. On conflict it is the old count + 1 or 0. Every other row keeps its place and contents. A row is appended only when the pair was absent |
| `Store.UpsertUnique` | server/server.js:83-86 | an upsert keeps the pairs (user_id, connected_id) unique |
| `Store.SendSummaries` | server/server.js:82-134 | after a send, row (from, to) has the message, the timestamp and unread 0. Row (to, from) has the message, the timestamp and its old unread + 1, or 1 if it is new. Every other row is unchanged. A self-send ends with unread 0 |
| `Store.AfterSendKeepsOtherRows` | server/server.js:82-134 | any row of the new table whose pair is neither (from, to) nor (to, from) is an old row at its old position |
| `Store.UnreadCountsEverySend` | server/server.js:86-90 | a run of n sends from one user to another raises the receiver's unread count by exactly n: no increment is lost. The sender's count ends at 0 |
| `Routing.RoutedEvents` | server/server.js:94-121 | `receive_on_Sidebar {from, message}` goes to `users[to]` iff `to` is registered. `receive_message {from, message, sent_at}` goes to the same socket iff also `activeChats[to] === from`. `message_sent {to, message, sent_at}` goes to `users[from]` iff `from` is registered. No other event is emitted |
| `Routing.RoutedOrder` | server/server.js:94-121 | the sidebar event comes before `receive_message`; `message_sent` comes after every push to the receiver; no event is emitted twice |
| `Queries.TranscriptCounts` | server/server.js:163-165 | exactly the logged messages between the two users, each as often as it is stored |
| `Queries.MessageHistory` | server/server.js:160-169 | the history reply holds exactly the messages whose sender and receiver are the two users in either direction, in non-decreasing `sent_at` order |
| `Queries.HistorySymmetric` | server/server.js:164-165 | both users of a pair get the same history |
| `Queries.HistoryAfterSend` | server/server.js:73-77 | storing a message never changes the history of any other pair. If it is stamped strictly after every earlier message of its own pair, it becomes the last entry of that pair's history |
| `Queries.HistoryOfOrderedConversation` | server/server.js:162-166 | whatever other pairs the table holds, the messages of one pair, stamped with strictly increasing timestamps, come back in the order they were stored |
| `Queries.TranscriptOfOneConversation` | server/server.js:163-165 | when every stored message is between the two users, the filter keeps all of them in log order |
| `Queries.HistoryOfOneConversation` | server/server.js:162-166 | a table holding only A to B, B to A, A to B, stamped in strictly increasing order, comes back as those three messages in that order |
| `Queries.Joined` | server/server.js:145-149 | the join holds a reply row for every summary row of the user whose peer is a known account, and nothing else |
| `Queries.JoinedCount` | server/server.js:145-149 | the join has exactly one reply row per such summary row: none dropped, none repeated |
| `Queries.ConversationsCount` | server/server.js:142-153 | the conversations reply has exactly as many entries as the user has summary rows with a known peer |
| `Queries.UserConversations` | server/server.js:142-153 | the conversations reply is sorted by `last_message_timestamp`, newest first. It holds exactly the user's summary rows whose peer is a known account (a permutation of the join), each with that peer's email |
| `Queries.SentConversationNewest` | server/server.js:124-149 | after such a send, the sent conversation's reply row is in the join and strictly newer than every other row of the sender |
| `Queries.SendMovesToTop` | server/server.js:124-150 | a send stamped after all of the sender's other conversations puts that conversation first in the sender's list, with the new message and unread 0 |
| `Sorting.SortBy` | server/server.js:150 | the ORDER BY result is sorted by its key and is a permutation of its input |
| `Sorting.SortAppendMax` | server/server.js:166 | appending a row whose key is strictly above every other key appends it to the sorted result |
| `Server.ChatServer.constructor` | server/server.js:53-54 | a started process has an empty `users` and an empty `activeChats` over the existing tables |
| `Server.ChatServer.Register` | server/server.js:58-61 | `users[userId]` becomes the calling socket. Only `users` changes |
| `Server.ChatServer.OpenChat` | server/server.js:64-67 | `activeChats[userId]` becomes `withUserId`, overwriting any earlier focus. Only `activeChats` changes |
| `Server.ChatServer.SendMessage` | server/server.js:70-139 | The success and failure cases: (1) On success: one row from/to/message/sent_at is appended to the log, the summaries become `AfterSend`, and the outbox grows by `Routed`. (2) A failed insert changes nothing. (3) A failed receiver upsert leaves only the new message row: no summary change and no event. (4) A failed sender upsert keeps the receiver row and all the events. `users` and `activeChats` never change |
| `Server.ChatServer.GetUserConversations` | server/server.js:142-157 | replies `user_conversations` with `UserConversations` to the calling socket, or nothing on a failed query. Only the outbox changes |
| `Server.ChatServer.GetMessageHistory` | server/server.js:160-173 | replies `message_history` with `MessageHistory` to the calling socket, or nothing on a failed query. Only the outbox changes |
| `Server.ChatServer.Disconnect` | server/server.js:176-186 | the loop deletes the first binding to the socket in enumeration order, and that user's `activeChats` entry, then stops. With no such binding nothing changes. The registry loses exactly that user |

## Left out

- The HTTP handlers `/login`, `/signup` and `/checkExistance`, password
  hashing, static file serving, the database connection pool and all
  logging. They are I/O or calls into libraries that are not part of this
  model.
- The socket.io transport. An emit is an appended outbox record. Delivery,
  rooms and closed sockets are not modelled.
- Interleaving of concurrent handlers at their `await`s. Each handler is one
  atomic step, and each SQL upsert is atomic.
- The database clock. `sent_at` is an input. The model itself does not
  require increasing timestamps. `HistoryOfOrderedConversation`,
  `HistoryOfOneConversation`, `SentConversationNewest` and `SendMovesToTop`
  assume strictly increasing timestamps, so their results do not depend on
  how equal keys are ordered. `HistorySymmetric`, `HistoryAfterSend` and
  `SortAppendMax` compare two sort results as sequences, with no such
  premise; their own lines below say what that leaves open.
- Message ids and any other columns returned by `RETURNING *` and
  `SELECT *` beyond sender, receiver, text and `sent_at`.
- `Queries.UserConversations`: for rows with equal timestamps, SQL leaves
  the order open. The model's sort is stable, but the contract states only
  sortedness and exact contents, not the order among ties.
- `Queries.MessageHistory`: likewise, the contract does not state the order
  of messages with equal `sent_at`.
- `Queries.HistorySymmetric`: when messages share a `sent_at`, the two
  users' replies agree on their order only in the model. Two runs of
  ORDER BY may order them differently. The contents always agree.
- `Queries.HistoryAfterSend`: when earlier messages of a pair share a
  `sent_at`, the equality of the two histories also fixes their order. A
  second ORDER BY run may order them differently.
- `Sorting.SortAppendMax`: when `s` holds equal keys, the equality also
  fixes their order across two sorts. ORDER BY does not promise that.
- `Store.Upsert`: `unread_count` is an unbounded natural number. The
  32-bit column's overflow is not modelled.
- JavaScript's loose typing of ids. All ids have one type here. The server
  compares `activeChats[to] === from` strictly, so a numeric id and the same
  id as a string do not match there, although they are the same key of
  `users`. The model does not capture that mismatch.
- Non-numeric keys of `users`. JavaScript enumerates them in insertion
  order. The model has integer ids only.
- Changes to the accounts table while the handlers run. The accounts table
  is fixed here.
- Not in the server code, so not modelled: a session-initiation
  handshake, a `markSeen` operation, rejection of empty or self-addressed
  sends, a tie-break on `connected_id`, and a single transaction for the
  two summary upserts.
