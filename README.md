# Chat broker model

A Dafny model of the session-and-pairing broker in the chat server
`backend/server.js`. The model covers:

- the `users` table, which maps a socket id to a display name and a role;
- the `pairs` table, which maps a user's socket id to a therapist's socket id;
- the set of open connections;
- the four Socket.IO handlers that read and change those tables: `setUser`,
  `publicMessage`, `privateMessage` and `disconnect`.

Files:

- `wrappers.dfy`: `Option`. It models a payload field that may be missing.
- `jsobject.dfy`: a plain JavaScript object used as a dictionary. It is a
  `map` plus the sequence of its keys in insertion order, which is the order
  `Object.keys` and `Object.entries` enumerate. The file also holds:
  - `InsertKey` and `DeleteKey`, which model assignment and `delete`;
  - `FindKey`, the first-match `find` scan.
- `server.dfy`: the event payloads and the `Broker` class. `Broker` holds the
  two tables, the open-connection set and an `outbox`. Each handler is a
  method that updates these fields. Everything the server emits is appended
  to `outbox`. Each entry is addressed to one socket, or to every
  connection open at that moment.

The object `socket.username`/`socket.role` is not a separate field. Lines
21-23 write it together with `users[socket.id]`, and nothing changes either
one until the socket disconnects. So the model reads the caller's name and
role from `users[id]`. A connection that never registered has no entry,
which is how `socket.role` being `undefined` behaves at line 48.

JavaScript falsiness is modelled exactly. A missing or empty `username`
becomes "Anonymous", and a missing or empty `role` becomes "user" (lines
21-22). Pairing, however, is triggered only by the literal payload role
"user" (line 26). The checks `therapistId &&` and `userId &&` (lines 72-73)
are written out as non-empty tests.

The invariant `Server.Consistent` holds between events. It says that:

- every key order lists its table's keys exactly once;
- records exist only for open connections;
- pairs exist only for registered users;
- no pair names its own key;
- a therapist id that is still connected is still registered.

From this invariant `PrivateMessage` proves two facts about an accepted
message. The sender is registered, so `socket.username` is defined. And the
target differs from the sender, so the sender does not get `socket.to(to)`.

Behaviour of `server.js` worth knowing (the model follows the code):

- `disconnect` deletes only the pair keyed by the departing id (line 94).
  Pairs that name it as therapist stay in `pairs`. See the last `ensures`
  clauses of `Server.Broker.Disconnect`.
- A therapist reaches, through the reverse lookup at line 69, only the first
  user in `pairs` key order who is paired with it. The other users paired
  with that therapist can write to it, but it cannot answer them (see
  `Server.TherapistReachesOneUser`), unless its own pair, kept from an
  earlier registration as "user", names that user.
- `io.emit` at lines 43, 58 and 95 reaches every open connection, registered
  or not. The audience is not limited to the registered participants.
- Roles are arbitrary strings. The role string for a therapist is "therapist".
  Re-registering with another role keeps existing pairs.

## Model

| member | source | states |
|---|---|---|
| JsObject.InsertKey | backend/server.js:23 | The key order after assigning `obj[k]` contains exactly the old keys plus `k`. Existing keys keep their positions. The order grows only when `k` is new. No duplicates are introduced. |
| JsObject.DeleteKey | backend/server.js:93-94 | The key order after `delete obj[k]` contains exactly the old keys other than `k`. No duplicates are introduced. Deleting an absent key leaves the order unchanged. |
| JsObject.DeleteKeyAt | backend/server.js:93-94 | In a duplicate-free order where `k` sits at position `i`, `delete` removes exactly that position. The keys before and after it keep their relative order. |
| JsObject.DeleteAbsentKey | backend/server.js:93-94 | Deleting a property the object does not have changes neither the object nor its key order. |
| JsObject.InsertKeyOrdered | backend/server.js:23 | After an assignment, the key order still lists exactly the object's keys, once each. |
| JsObject.DeleteKeyOrdered | backend/server.js:93-94 | After a `delete`, the key order still lists exactly the object's keys, once each. |
| JsObject.FindKey | backend/server.js:27-29 | The `find` scan returns the first key in insertion order whose value satisfies the test. It returns nothing exactly when no value does. |
| JsObject.FirstIsUnique | backend/server.js:69 | At most one key is the first, in insertion order, whose value satisfies a test. So the `find` result is determined by the object. |
| Server.DisplayName | backend/server.js:21 | The stored name is never empty. It is the payload name when that is present and non-empty, and "Anonymous" otherwise. |
| Server.StoredRole | backend/server.js:22 | The stored role is "user" exactly when the payload role is missing, empty or "user". It is "therapist" exactly when the payload says "therapist". Any other string is stored as given. |
| Server.TherapistChoiceIsFirst | backend/server.js:27-31 | There is only one first therapist in `users` order, so a user is never paired with a later one. |
| Server.TherapistReachesOneUser | backend/server.js:69-73 | Among the users paired with a therapist, only one can be the target of the reverse lookup. |
| Server.StoreKeepsConsistent | backend/server.js:23 | Storing a record for an open connection preserves the table invariant. |
| Server.PairKeepsConsistent | backend/server.js:31 | Pairing a registered user with another registered id preserves the table invariant. |
| Server.UnregisterKeepsConsistent | backend/server.js:93-94 | Deleting a connection's record and its pair preserves the table invariant. |
| Server.Broker.constructor | backend/server.js:14-15 | The server starts with empty tables, no connections and nothing emitted. |
| Server.Broker.Connect | backend/server.js:17 | A new connection joins the open set and nothing else changes. |
| Server.Broker.SetUser | backend/server.js:20-44 | Only the caller's record changes, and it is set to the normalised name and role. If the payload role is "user" and a therapist is registered, the caller is paired with the first therapist in `users` order. That therapist is never the caller. Both ends then receive each other's id and name. In every other case the pairs are unchanged. Last, the whole `users` table goes to every open connection. The invariant is kept. |
| Server.Broker.Store | backend/server.js:21-23 | Only the caller's record and its place in the key order change. |
| Server.Broker.Pair | backend/server.js:31-39 | The pair for `u` is set to `t`, overwriting any earlier one. `u` then receives `t`'s id and name, and `t` receives `u`'s. |
| Server.Broker.PublicMessage | backend/server.js:47-59 | A sender stored as "user" produces one event. It goes to every open connection, the sender included, and carries the stored name. Any other sender, or an unregistered one, produces nothing. |
| Server.Broker.PrivateMessage | backend/server.js:62-89 | The message is accepted exactly when `to` is the sender's therapist, or the first user in `pairs` order paired with the sender. An accepted message comes from a registered sender to a different id. The same event goes to `to` and then back to the sender. A refused message emits nothing. |
| Server.Broker.Disconnect | backend/server.js:91-96 | The connection closes. Its record and the pair keyed by it are deleted. Every other pair stays, including pairs that name the departing id. A connection that never registered leaves both tables unchanged. The new `users` table goes to the connections still open. The invariant is kept. |
| Server.Broker.Unregister | backend/server.js:93-94 | The connection leaves the open set. Its entries leave both tables and both key orders, and the invariant is kept. |

## Left out

- The Express app and HTTP server are not modelled: Socket.IO and CORS setup, and the `listen` call (lines 1-12 and 99-101). They are configuration with no broker state.
- `console.log` at lines 18 and 92 is not modelled. It is logging only.
- The time string from `toLocaleTimeString` (lines 53-56 and 63-66) is a parameter `Time`. It depends on the wall clock and the locale.
- Socket.IO room delivery after a send is not modelled. An event addressed to an id that is no longer connected is recorded in `outbox` like any other. A closed socket simply does not receive it.
- Concurrency is not modelled. Node runs each handler to completion, so each handler is one atomic method.
- Server.Broker.Connect: requires a fresh, non-empty id. Socket.IO generates 20-character ids and never reuses them. For the same reason, object keys never look like array indices, so insertion order is the enumeration order.
- Server.Broker.SetUser, Server.Broker.PrivateMessage: an event whose payload is not an object (missing or `null`) throws at the destructuring in the parameter list (lines 20 and 62) before any change. This is not modelled. The client always sends an object (`frontend/src/Components/Chat.jsx`, lines 21 and 48).
- Payload values that are not strings are not modelled: numbers, objects, an `undefined` `to` or `text`. Fields are either missing or strings.
- The frontend (`frontend/`) is not part of this model. It is presentation only.
