# Room relay of the trivia server, in Dafny

This project models the real-time part of the trivia server. That part is
`handleWebSocketConnection` in `websocket.ts`. It keeps a module-level map
`roomConnections` from a room code to the set of live server-side sockets.
Three events drive it:

- **Connect.** A request without a non-empty `roomCode` query parameter gets
  status 400. Otherwise a new socket pair is made. The room's set is created
  if it is missing, and the server socket is added to it.
- **Message.** The frame is parsed as JSON. The connection's room code is
  written into the `roomCode` property. The result is sent to every socket of
  that room whose `readyState` is 1 (OPEN), the sender included.
- **Close.** The socket is removed from its room. A room whose set becomes
  empty is deleted from the map.

Files:

- `wrappers.dfy`: `Option`.
- `json.dfy` (module `Json`): the parsed message and the room-code stamp.
- `registry.dfy` (module `Registry`): the map of rooms as a value. A JavaScript
  `Set` keeps insertion order and holds each socket once, so a room is a
  sequence without duplicates. `Join` and `Leave` are the connect-time and
  close-time updates.
- `relay.dfy` (module `Relay`): the `Hub` class and its three handlers.
  - `Hub` holds `rooms` (the map), `roomOf` (the room code each socket's
    listeners captured), `nextId` (the socket the next `new WebSocketPair()`
    yields) and a ghost set of closed sockets.
  - `Consistent` is the invariant. Every stored room is non-empty, and a room
    holds exactly the sockets that connected to it and have not closed.
  - `ConnectKeepsConsistent` and `CloseKeepsConsistent` prove that each
    handler preserves the invariant.
  - `OnMessage` changes no state. It returns the list of sends it makes, in
    order.

Parameters supplied by the environment:

- the decoded query pairs of the request;
- the outcome of `JSON.parse` (`None` when it throws);
- each socket's `readyState`.

Event listeners run one at a time on the worker's event loop, so each handler
is one atomic method.

`websocket.ts` has no buzz arbitration and no generation counters. It does
not copy the member list before sending, does not prune sockets whose send
fails, and emits no join or leave events. The relay forwards any message
without looking at its `type`. Sockets that are not OPEN are skipped but stay
in the room.

## Model

| member | source | states |
|---|---|---|
| `Registry.SetAdd` | websocket.ts:23 | Adding a socket gives the old members plus that socket. The old order is kept, the socket goes at the end if new, and no duplicate is created. |
| `Registry.SetDelete` | websocket.ts:53 | Deleting a socket gives exactly the other members. Deleting a non-member changes nothing. Deleting a member of a duplicate-free set shrinks it by one. |
| `Registry.SetDeleteKeepsOrder` | websocket.ts:53 | In a duplicate-free set, deleting the member at any position gives the set with exactly that element removed and the others in their old order, which is the order of later sends. |
| `Registry.Join` | websocket.ts:20-23 | After a join, the room exists and its members are the old members plus the new socket. An existing room keeps its members in order. Every other room is unchanged, and "no room is stored empty" is preserved. |
| `Registry.Leave` | websocket.ts:51-58 | After a close, the room's members are the old members minus the socket. The room is stored exactly when it still has a member. A missing room stays missing, every other room is unchanged, and "no room is stored empty" is preserved. |
| `Registry.JoinIdempotent` | websocket.ts:23 | Joining the same socket twice gives the same registry as joining it once. |
| `Registry.LeaveNonMemberNoOp` | websocket.ts:51-53 | Closing a socket that is not in the room, or whose room is gone, leaves the registry unchanged. |
| `Registry.LeaveUndoesJoin` | websocket.ts:20-58 | A new socket that joins a room and then closes leaves the registry exactly as it was. If it had created the room, the room is removed again. |
| `Json.Stamp` | websocket.ts:33-40 | An object gets `roomCode` set to the connection's room, and its other properties are kept. An array goes out unchanged. `null` and primitives make the assignment throw, so nothing is relayed. |
| `Json.StampIgnoresClaimedRoom` | websocket.ts:33 | Any `roomCode` the client put in its message makes no difference to what is relayed. |
| `Json.StampLastWins` | websocket.ts:33 | Stamping an already stamped message with another code is the same as stamping once with that code. |
| `Relay.SearchParam` | websocket.ts:8-9 | The lookup finds nothing exactly when no pair has that name. Otherwise it returns the value of the first pair with that name. |
| `Relay.Deliveries` | websocket.ts:36-42 | One relay sends only to members of the snapshot that are OPEN, each time with the same message. Every OPEN member is sent to, and there are at most as many sends as members. |
| `Relay.DeliveriesOncePerSocket` | websocket.ts:38-42 | Over a duplicate-free room, no socket is sent the message twice. |
| `Relay.MembersAreLive` | websocket.ts:20-58 | Under the invariant, a room's members are exactly the sockets that connected to it and have not closed. A room is stored exactly when it has such a socket. |
| `Relay.ConnectKeepsConsistent` | websocket.ts:16-23 | The new socket id is unused. Joining it keeps the invariant: no empty room, members are exactly the live sockets of that room. |
| `Relay.CloseKeepsConsistent` | websocket.ts:49-60 | Leaving and marking the socket closed keeps the invariant. |
| `Relay.Hub.constructor` | websocket.ts:5 | The registry starts with no rooms and no sockets, and the invariant holds. |
| `Relay.Hub.Connect` | websocket.ts:7-23 | A missing or empty `roomCode` gives status 400 and changes nothing. Otherwise a fresh socket joins the room (`Join`), its listeners capture the room, the response is 101, and the invariant is kept. |
| `Relay.Hub.OnMessage` | websocket.ts:28-47 | Nothing is sent for an unparsable frame, or for a payload the stamp rejects. Otherwise the sends are `Deliveries` over the room's current members, in set order. Every OPEN member receives the stamped message. Under the invariant, each recipient receives it once, and no socket outside the room and no closed socket receives anything. No state changes. |
| `Relay.Hub.OnClose` | websocket.ts:49-60 | The registry becomes `Leave` of the socket's captured room. Only that room can change, an emptied room is deleted, and the invariant is kept. |

## Left out

- The WebSocket upgrade: `server.accept()`, the client half of the pair and
  the `Response` object. Only the status (400 or 101) and the socket id are
  kept. A pair is named by its server socket.
- URL parsing and percent-decoding. `Connect` receives the decoded query as
  name/value pairs.
- JSON text. `JSON.parse` and `JSON.stringify` are not modelled: the handler
  receives the parse result and sends `Json` values. Numbers are integers,
  and the key order of objects is not kept. The stamp's behaviour on
  primitives assumes module code runs in strict mode, where setting a property
  on a primitive throws.
- `readyState` transitions belong to the transport. They are a parameter of
  `OnMessage`, not state.
- `conn.send` is assumed not to throw. In the source, a throwing send would
  end the loop early, and the error would be caught and logged at lines 44-46.
- `console.error` logging.
- Delivery to clients and ordering on the network.
- db.ts, route.ts, useWebSocket.ts and the React pages are not part of this
  model. They are storage calls, request routing and UI.
