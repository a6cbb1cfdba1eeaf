# CurveFever session server, modelled in Dafny

CurveFever is a multiplayer trail game. Its server is a relay for one room,
`/broadcast`. It remembers three things:

- the players, a `Map` from socket id to the `{id, color}` each client
  declared when it joined;
- `lines`, the segments drawn so far, in arrival order;
- `gameStarted`, a flag that goes from false to true once.

Five socket events change this state: `join`, `segment`, `dead`, `start` and
the transport's `disconnect`. Each handler runs to completion before the next
event is handled. So this model treats each handler as one pure step,
`Step(state, socketId, event)`. A step returns the next state and the messages
it emits, in emission order. Each message is tagged with its audience:
`Sender`, `AllButSender` or `All`. Segments are an opaque type parameter.

Files:

- `players.dfy` (module `Players`): the player table. A JavaScript `Map`
  iterates in insertion order, so the table is a sequence of
  `Entry(sid, Info(id, color))` with distinct socket ids. The module models
  `get`, `set` and `delete` on it, the first-match scan used by `dead`, and the
  `getPlayers()` snapshot. The two source loops (`getPlayers` and the scan in
  `dead`) are also written as methods and proved equal to the functional
  definitions.
- `session.dfy` (module `Session`): the session state, events, outbound
  messages, the five handlers, `Step`, and `Run` over a trace of events.
- `properties.dfy` (module `SessionFacts`): properties that span several calls:
  - the join reply;
  - the round lifecycle over arbitrary traces;
  - how `dead` and `disconnect` interact;
  - a concrete two-player session.

The contracts are stated against independent notions:

- `Get` (the map lookup), so each table operation is stated as a map law;
- `SocketIds` (the set of map keys) for `players.size`;
- `PlayerIds`, `LastWithId` and `ProtoKey` for the snapshot;
- `CanStart` for the round guard;
- `StartCount` and `Drawn` for traces.

## Model

| member | source | states |
|---|---|---|
| Players.IndexOf | index.js:44-47 | the result is the first position, in insertion order, whose entry matches the key; None exactly when no entry matches |
| Players.Get | index.js:64 | `players.get(sid)` is defined exactly when some entry has socket id `sid`, and the value it returns is stored under `sid` |
| Players.GetEntry | index.js:64 | in a table with distinct socket ids, `get` returns the value of the one entry with that socket id |
| Players.Set | index.js:32 | after `players.set(sid, info)`, `get(sid)` is `info` and every other socket's lookup is unchanged; an existing key keeps its position and the size, a new key is appended last and grows the table by one; distinct keys stay distinct |
| Players.Delete | index.js:66 | `players.delete(sid)` with `sid` absent leaves the table as it is; otherwise it cuts out the first (and, in a map, only) entry with that socket id, and the remaining entries keep their insertion order; every other socket's lookup is unchanged, `sid` is gone afterwards, and the size drops by one exactly when `sid` was present |
| Players.RemoveFirst | index.js:44-49 | with no matching entry the table is unchanged; otherwise exactly the first matching entry is cut out and the others keep their order |
| Players.RemoveFirstPlayerKeepsOthers | index.js:44-49 | removing the first entry with player id `id` removes one socket and leaves every other socket's value untouched |
| Players.SizeIsKeyCount | index.js:27 | `players.size`, the number of distinct keys, equals the table length |
| Players.AssignProperty | index.js:21 | `obj[id] = { color }` on an object built from `{}`: the own keys gain `id` unless `id` is `"__proto__"`, whose assignment only replaces the prototype; a gained key holds the new color, and every other own key keeps its value |
| Players.GetPlayers | index.js:18-24 | the own keys of the object `getPlayers()` returns are exactly the stored player ids other than `"__proto__"`, whose assignment replaces the object's prototype instead of adding a key |
| Players.GetPlayersLastWins | index.js:20-21 | a stored id is in the snapshot exactly when it is not `"__proto__"`; when several entries share such an id, the snapshot maps it to the color of the last of them in insertion order |
| Players.CollectPlayers | index.js:18-24 | the for-of loop of `getPlayers()` builds an object whose own keys are the stored player ids other than `"__proto__"`, where later entries overwrite earlier ones |
| Players.ScanRemovePlayer | index.js:43-49 | the loop of `dead`, with its `break`, deletes exactly what `RemoveFirst` deletes, and it removes an entry iff some entry carries `id` |
| Session.Initial | index.js:14-16 | the process starts with no players, no segments and no round |
| Session.PlayerCountOf | index.js:26-28 | `playerCount` goes to the whole room and carries `players.size`: in a well-formed table, the number of distinct socket ids that have an entry |
| Session.StateReply | index.js:34 | the `state` reply goes to the sender only, carries the current segments, and its snapshot has the keys and last-entry colors that `getPlayers()` produces for the table |
| Session.OnJoin | index.js:31-36 | after `join`, the table is `players.set(sid, {id, color})`: the sender's socket maps to `{id, color}`, every other socket is unchanged, an existing socket keeps its position and a new one is appended; the reply to the sender is a `state` snapshot of the UPDATED table, whose keys are its player ids other than `"__proto__"` (so it contains `id` exactly when `id` is not `"__proto__"`) and whose colors are those of each id's last entry, with the current segments; then a room-wide `playerCount` of the new size |
| Session.OnSegment | index.js:38-41 | `segment` appends the payload after all earlier segments, echoes it unchanged to all but the sender, and changes nothing else |
| Session.OnDead | index.js:43-53 | `dead(id)` removes the first entry with that player id, or nothing; with no such entry the state is unchanged; it always emits `dead {id}` to all but the sender and then a room-wide `playerCount`; segments and flag are untouched |
| Session.OnStart | index.js:55-61 | `start` sets the flag, empties the segments and emits one room-wide `start` exactly when no round has started and at least two players are present; otherwise nothing changes and nothing is emitted |
| Session.OnDisconnect | index.js:63-71 | a socket with no entry causes no change and no messages; otherwise the table is `players.delete(sid)`, so exactly that socket's entry goes and the others keep their order, and the room gets `dead` with the stored id and then `playerCount` |
| Session.Step | index.js:30-72 | every handler keeps socket ids distinct, and none clears `gameStarted` |
| Session.Run | index.js:30-72 | over any trace of events, socket ids stay distinct and a started round stays started |
| SessionFacts.JoinReplyShowsJoiner | index.js:32-34 | a socket joining for the first time finds its own id with its own color in the `state` reply, exactly when that id is not `"__proto__"` |
| SessionFacts.RejoinCanBeShadowed | index.js:20-21 | a re-join keeps the old position, so a later entry with the same player id supplies that id's color in the reply |
| SessionFacts.StepRoundLifecycle | index.js:55-61 | the flag changes in exactly one case, a `start` whose guard holds; that step empties the log and emits `start`; every other step keeps the old log as a prefix |
| SessionFacts.StartEmittedAtMostOnce | index.js:56-59 | over any trace, the room receives `start` at most once, and never once a round is already running |
| SessionFacts.StartAfterStartIsNoop | index.js:56-57 | once the flag is set, a `start` after any trace changes nothing and emits nothing |
| SessionFacts.StepAppendsDrawn | index.js:38-41 | any step other than a `start` whose guard holds, before or during a round, appends its segment if it carries one, otherwise keeps the log, and keeps the round flag |
| SessionFacts.SegmentsKeepArrivalOrder | index.js:38-41 | when a round is running or the trace holds no `start`, the log after the trace is the old log followed by the trace's segments in arrival order |
| SessionFacts.DeadThenDisconnectIsNoop | index.js:44-66 | after `dead` removes a socket's own entry, that socket's `disconnect` changes nothing and emits nothing |
| SessionFacts.DisconnectIsIdempotent | index.js:63-71 | a second `disconnect` of the same socket changes nothing and emits nothing |
| SessionFacts.DisconnectThenDeadStillEmits | index.js:43-53 | after a `disconnect`, a `dead` for the departed id, when no other entry carries that id, changes no state; it still emits `dead` to all but the sender and then `playerCount` |
| SessionFacts.SessionAJoins | index.js:31-36 | concrete session: the first joiner's reply already lists itself, and the count is 1 |
| SessionFacts.SessionBJoins | index.js:31-36 | concrete session: the second joiner's reply lists both players, and the count is 2 |
| SessionFacts.SessionADraws | index.js:38-41 | concrete session: a segment is logged and echoed to all but the drawer |
| SessionFacts.SessionAStarts | index.js:55-61 | concrete session: with two players, `start` sets the flag, clears the log and tells the room |
| SessionFacts.SessionBReportsDead | index.js:43-53 | concrete session: B's `dead` for p1 removes A's entry and goes to all but B, then the count is 1 |

### Behaviour worth noting

- The `join` reply already lists the joiner. The table is updated at
  index.js:32, before the snapshot is built at index.js:34. The
  `SessionAJoins` and `SessionBJoins` lemmas show it for a concrete session.
- `dead` announces even when nothing was removed: it always emits `dead` and
  `playerCount` (index.js:50-51). So `disconnect` followed by `dead` for the
  same id produces a second notification pair
  (`DisconnectThenDeadStillEmits`). In the other order, `dead` then
  `disconnect` of the socket whose entry was removed, the `disconnect` is a
  no-op (`DeadThenDisconnectIsNoop`).
- Player ids are not unique. `dead` removes the first matching entry, and the
  snapshot shows the color of the last matching entry. When a socket joins
  again, its entry keeps its old position. So the joiner is guaranteed to see
  its own color only when the socket is new (`JoinReplyShowsJoiner`). A
  re-joining socket sees its own id, but possibly with another entry's color
  (`RejoinCanBeShadowed`).
- The snapshot is a plain object built from `{}` (index.js:19-21). For the
  player id `"__proto__"`, the assignment `obj[id] = { color }` runs the
  prototype setter inherited from `Object.prototype`: it replaces the
  object's prototype and adds no own key. Such a player is therefore missing
  from every `state` reply, including its own. The model treats the snapshot
  as the object's own keys and skips that id (`ProtoKey`, `AssignProperty`).
  All other names, including `constructor` or `toString`, become own keys.

## Left out

- Express, the HTTP server, static file hosting and port selection/binding
  (index.js:1-9, index.js:74-75): process plumbing with no state of the core.
- The socket.io transport (index.js:3, index.js:11, index.js:30): connections
  and delivery are not modelled. Audiences are abstract tags relative to the
  sending socket. Socket ids are opaque strings given to `Step`.
- `console.log` calls (index.js:33, index.js:52, index.js:69): logging only.
- Concurrency: the event loop serialises handlers, so each handler is one
  atomic step and a trace is any sequence of (socket, event) pairs.
- Payload shapes and serialisation: segments are an opaque type parameter.
  `join` and `dead` payloads are already destructured into their `id` and
  `color` strings. A malformed payload that would make destructuring throw is
  not modelled. The `state` message carries the snapshot as a map from id to
  color rather than to a `{color}` object.
