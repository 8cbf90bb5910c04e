# Overflow Online lobby engine in Dafny

A model of the lobby and session layer of the Overflow Online card-game
backend. It has two parts.

- The key-value store wrapper `RedisClientService`, in `redis_client_service.dfy`
  (module `RedisClient`). Four families of keys are modelled:
  - the lobby record `game-{code}`, a hash with host, code and active;
  - the ordered member list `game-{code}-players`;
  - the host back-reference `host-{id}`;
  - the display name `{id}-display-name`.

  Each family is a `map` field of a class, keyed by the variable part of the
  key. The wrapper's operations are methods with `modifies this`. Each
  method states the whole new state and preserves `Valid()`. `Valid()`
  says the store never holds an empty list, because Redis deletes a list
  once its last element is removed.
- The WebSocket command handlers of `AppGateway`, in `app_gateway.dfy`
  (module `Gateway`). A handler is a method. It checks its input, calls the
  store, and returns the ordered list of what it hands to the transport:
  - `Emit(target, event, payload)`;
  - `JoinRoom(room)`;
  - `Call(...)`, for store operations whose code is not part of this model
    (startGame, playCard, drawCards).

  The gateway's `Valid()` adds one invariant: every member list belongs to an
  existing lobby record. Because of it, creating a lobby on a fresh code
  leaves exactly `[host]` as its members.

"Blank" means what `displayName.trim().length === 0` tests. `Trim` strips
the full ECMAScript WhiteSpace and LineTerminator set: tab, LF, VT, FF, CR,
space, U+00A0, U+1680, U+2000–U+200A, U+2028, U+2029, U+202F, U+205F,
U+3000 and U+FEFF. `TrimEmptyIffBlank` proves that trimming leaves nothing
exactly when every character is one of these.

Turn passing follows the loop in playCard and drawCards. For every index
`i` at which the acting player's id occurs in the member list read before the
play, `actionGiven` goes to `players[(i + 1) % len]`. `Handoffs` is that
list of emits. The lemmas prove three things about it:
- a member listed once passes the turn to exactly the next member,
  wrapping round to the first;
- an id that is not in the list passes it to no one;
- an id listed twice (a double join) passes it twice.

The model follows the code, including where it departs from what its own
comments promise:
- startGame with fewer than two players sends the failure response. It
  then still calls the store's startGame and broadcasts `gameStartEvent`,
  although the doc comment at overflow-backend/src/app.gateway.ts:248-252
  says the failure response is "not emitted otherwise", that is, sent only
  when the game could not be started. This is also a finding below.
- disconnectPlayer is documented as cleaning up the player's resources
  (overflow-backend/src/redis-client/redis-client.service.ts:191-196), but
  it leaves a host's lobby in place. This is the other finding below.
- kickPlayer has no check of who asks. It can remove the host, so "the host
  is always a member" is not an invariant of the code.
- A play by an id that is not a member gives the turn to no one.
- Blank-code and missing-lobby failures carry the fixed messages of the
  code.

## Model

| member | source | states |
|---|---|---|
| `RedisClient.RemoveAll` | overflow-backend/src/redis-client/redis-client.service.ts:233-235 | the list LREM with count 0 leaves holds no occurrence of the value and is no longer than before |
| `RedisClient.RemoveFirst` | overflow-backend/src/redis-client/redis-client.service.ts:105-113 | LREM with a positive count: the result is never longer than the list; where the copies come from is stated by `RemoveFirstSplit` |
| `RedisClient.RemoveLast` | overflow-backend/src/redis-client/redis-client.service.ts:105-113 | LREM with a negative count: the result is never longer than the list; where the copies come from is stated by `RemoveLastSplit` |
| `RedisClient.RemoveAllAbsent` | overflow-backend/src/redis-client/redis-client.service.ts:233-235 | kicking an id that is not in the list leaves the list exactly as it was |
| `RedisClient.RemoveAllAppend` | overflow-backend/src/redis-client/redis-client.service.ts:233-235 | removal distributes over concatenation, so the remaining members keep their relative order |
| `RedisClient.RemoveAllMultiset` | overflow-backend/src/redis-client/redis-client.service.ts:233-235 | exactly the occurrences of the kicked id go; every other id keeps its number of occurrences |
| `RedisClient.RemoveAllIdempotent` | overflow-backend/src/redis-client/redis-client.service.ts:233-235 | kicking the same id twice is the same as kicking it once |
| `RedisClient.RemoveAllAfterAppend` | overflow-backend/src/redis-client/redis-client.service.ts:217-219 | a kick undoes a join: removing every x from list + [x] is removing every x from the list; for a newcomer it restores the list |
| `RedisClient.RemoveFirstLength` | overflow-backend/src/redis-client/redis-client.service.ts:105-113 | a positive count n shortens the list by min(n, occurrences of the value) |
| `RedisClient.RemoveFirstKeepsOthers` | overflow-backend/src/redis-client/redis-client.service.ts:105-113 | a positive count removes no element other than the value: every other id keeps its number of occurrences |
| `RedisClient.RemoveFirstSplit` | overflow-backend/src/redis-client/redis-client.service.ts:105-113 | a positive count removes from the head: for some prefix holding min(n, occurrences) copies, every copy in that prefix goes and the rest of the list stays as it is, so the survivors keep their order |
| `RedisClient.RemoveLastSplit` | overflow-backend/src/redis-client/redis-client.service.ts:105-113 | a negative count removes from the tail: for some suffix holding min(n, occurrences) copies, every copy in that suffix goes and the front of the list stays as it is, so the survivors keep their order |
| `RedisClient.RemoveLastLength` | overflow-backend/src/redis-client/redis-client.service.ts:105-113 | a negative count -n shortens the list by min(n, occurrences of the value) |
| `RedisClient.RemoveLastKeepsOthers` | overflow-backend/src/redis-client/redis-client.service.ts:105-113 | a negative count removes no element other than the value |
| `RedisClient.LremRemovedCount` | overflow-backend/src/redis-client/redis-client.service.ts:105-113 | the number of elements LREM removes: every occurrence for count 0, min(abs(count), occurrences) otherwise |
| `RedisClient.RedisClientService.constructor` | overflow-backend/src/redis-client/redis-client.service.ts:9 | a fresh client sees an empty store that satisfies the store invariant |
| `RedisClient.RedisClientService.GameExists` | overflow-backend/src/redis-client/redis-client.service.ts:96-103 | gameExists(code) is true exactly when the key game-{code} is present |
| `RedisClient.RedisClientService.SetName` | overflow-backend/src/redis-client/redis-client.service.ts:124-126 | the display name of the player is replaced by the new name; no other key changes |
| `RedisClient.RedisClientService.GetPlayerName` | overflow-backend/src/redis-client/redis-client.service.ts:187-189 | returns the stored display name, or None (null) when the player never set one |
| `RedisClient.RedisClientService.GetGameOfHost` | overflow-backend/src/redis-client/redis-client.service.ts:177-179 | returns the code in host-{id}, or None when the id hosts nothing |
| `RedisClient.RedisClientService.CreateNewGame` | overflow-backend/src/redis-client/redis-client.service.ts:145-169 | one batch: record {host, code, active "0"}, host appended to the member list, host-{host} = code; display names untouched |
| `RedisClient.RedisClientService.JoinGame` | overflow-backend/src/redis-client/redis-client.service.ts:217-219 | the player is appended at the end; earlier members keep their order; duplicates allowed; other keys unchanged |
| `RedisClient.RedisClientService.GetGamePlayers` | overflow-backend/src/redis-client/redis-client.service.ts:221-231 | one entry per list element, in list order, each with the display name read for its id (possibly absent) |
| `RedisClient.RedisClientService.Lrem` | overflow-backend/src/redis-client/redis-client.service.ts:105-113 | the list becomes the LREM result (the key is deleted when that is empty); the reply is true exactly when one element was removed |
| `RedisClient.RedisClientService.KickPlayer` | overflow-backend/src/redis-client/redis-client.service.ts:233-235 | the list loses every occurrence of the player; other lists, records, back-references and names unchanged |
| `RedisClient.RedisClientService.DisconnectPlayer` | overflow-backend/src/redis-client/redis-client.service.ts:197-209 | as written: host-{id} is deleted, and so are the record and list of the code "[object Promise]", not the host's own lobby |
| `RedisClient.RedisClientService.DisconnectHost` | overflow-backend/src/redis-client/redis-client.service.ts:197-209 | corrected: the lobby the player hosts loses its record and member list, and the back-reference goes; a non-host changes nothing |
| `RedisClient.DisconnectLeavesHostedLobby` | overflow-backend/src/redis-client/redis-client.service.ts:198-202 | after H1 creates ABCD and disconnects, lobby ABCD and its members [H1] remain |
| `RedisClient.DisconnectHostRemovesLobby` | overflow-backend/src/redis-client/redis-client.service.ts:198-202 | with the corrected disconnect the same steps leave no record, no members and no back-reference |
| `Gateway.TrimStart` | overflow-backend/src/app.gateway.ts:73 | a suffix of the input whose dropped prefix is all whitespace and which starts with a non-white character |
| `Gateway.TrimEnd` | overflow-backend/src/app.gateway.ts:73 | a prefix of the input whose dropped suffix is all whitespace and which ends with a non-white character |
| `Gateway.TrimEmptyIffBlank` | overflow-backend/src/app.gateway.ts:73 | trim() yields the empty string exactly when every character of the input is whitespace |
| `Gateway.IndicesOf` | overflow-backend/src/app.gateway.ts:310-311 | every listed index is in range and holds the acting player's id |
| `Gateway.IndicesOfComplete` | overflow-backend/src/app.gateway.ts:310-311 | every index at which the id occurs is listed |
| `Gateway.IndicesOfIncreasing` | overflow-backend/src/app.gateway.ts:310 | the indices come in increasing order, as the loop visits them |
| `Gateway.IndicesOfCount` | overflow-backend/src/app.gateway.ts:310-311 | there are as many indices as occurrences of the id |
| `Gateway.HandoffsToNext` | overflow-backend/src/app.gateway.ts:310-317 | a member listed once at index i gives actionGiven to players[(i + 1) % len] and to no one else |
| `Gateway.HandoffsCount` | overflow-backend/src/app.gateway.ts:345-352 | one actionGiven per occurrence of the id; none when the id is not a member |
| `Gateway.GiveTurn` | overflow-backend/src/app.gateway.ts:310-317 | the loop emits exactly the handoffs: for each matching index, actionGiven to the next entry's id |
| `Gateway.Relay` | overflow-backend/src/app.gateway.ts:305-308 | each event of the store's queue is emitted to the lobby's room, in queue order |
| `Gateway.AppGateway.constructor` | overflow-backend/src/app.gateway.ts:20-22 | the gateway wraps the given store, whose member lists all belong to lobby records |
| `Gateway.AppGateway.SetName` | overflow-backend/src/app.gateway.ts:70-82 | blank name: {false, "Username cannot be blank"} and nothing stored; otherwise the name is stored for the caller and {true, name} returned |
| `Gateway.AppGateway.CreateLobby` | overflow-backend/src/app.gateway.ts:98-126 | blank code: "Lobby Code cannot be empty"; code in use: "Lobby Code in use"; both leave the store unchanged; otherwise record, members [caller], back-reference, room join, {true, code} |
| `Gateway.AppGateway.JoinLobby` | overflow-backend/src/app.gateway.ts:155-188 | blank code or missing lobby is refused with its fixed message and the members unchanged; otherwise the caller is appended, joins the room, the room hears playerJoin with its name, {true, code} |
| `Gateway.AppGateway.GetPlayers` | overflow-backend/src/app.gateway.ts:209-215 | one response to the caller listing the members in list order with their display names |
| `Gateway.AppGateway.KickPlayer` | overflow-backend/src/app.gateway.ts:225-239 | the kicked id no longer occurs in the members; the others keep their order; kickEvent goes to the room; no other key changes |
| `Gateway.AppGateway.StartGame` | overflow-backend/src/app.gateway.ts:257-273 | as written: with fewer than 2 players the failure response is sent and the store's startGame is still called and gameStartEvent broadcast |
| `Gateway.AppGateway.StartGameChecked` | overflow-backend/src/app.gateway.ts:260-265 | corrected: with fewer than 2 players only the failure response; the store's startGame is called exactly when there are 2 or more |
| `Gateway.AppGateway.GetGameData` | overflow-backend/src/app.gateway.ts:275-287 | the data goes to the caller, then actionGiven goes to the host getHostOfGame named |
| `Gateway.AppGateway.PlayCard` | overflow-backend/src/app.gateway.ts:289-318 | the play is called, its queue relayed to the room in order, then the turn handoffs computed from the member list read before the play |
| `Gateway.AppGateway.DrawCards` | overflow-backend/src/app.gateway.ts:320-353 | as PlayCard, with the store's drawCards |
| `Gateway.AppGateway.HandleDisconnect` | overflow-backend/src/app.gateway.ts:30-39 | as written: the room of the player's lobby hears kickEvent; host-{id} and the record and list of the code "[object Promise]" are deleted; every other key, the player's hosted lobby included, is unchanged |
| `Gateway.AppGateway.HandleDisconnectCorrected` | overflow-backend/src/app.gateway.ts:30-39 | corrected: the same kickEvent; a host's lobby record, member list and back-reference are deleted and nothing else changes; a non-host changes nothing |
| `Gateway.StartWithOnePlayer` | overflow-backend/src/app.gateway.ts:260-268 | a count of 1 yields the failure response, the store's startGame call and a final gameStartEvent |
| `Gateway.DisconnectThenJoin` | overflow-backend/src/app.gateway.ts:30-39 | H1 creates ABCD and disconnects, then P2 joins ABCD: the join succeeds, because the hosted lobby survives |
| `Gateway.DisconnectCorrectedThenJoin` | overflow-backend/src/app.gateway.ts:30-39 | the same steps with the corrected disconnect: the join is refused with "Lobby does not exist" |
| `Gateway.CreateThenJoin` | overflow-backend/src/app.gateway.ts:155-188 | H1 creates ABCD and P2 joins: members [H1, P2]; H1's play passes the turn to P2, P2's to H1 |

## Findings

| source | as written | input that shows it | evidently intended | confidence | as-written member | corrected member |
|---|---|---|---|---|---|---|
| overflow-backend/src/redis-client/redis-client.service.ts:198-202 | `getGameOfHost` is not awaited, so the keys are built from a pending Promise: `game-[object Promise]` and `game-[object Promise]-players` are deleted | host H1 creates lobby ABCD, then disconnects: ABCD's record and members [H1] remain | read the host's lobby code first and delete `game-ABCD`, `game-ABCD-players` and `host-H1`; for a player who hosts nothing, delete nothing (an `await` alone would make a non-host delete `game-null` and `game-null-players`, the keys of a lobby named "null") | high (not executed) | `RedisClient.RedisClientService.DisconnectPlayer` and `Gateway.AppGateway.HandleDisconnect`, shown by `RedisClient.DisconnectLeavesHostedLobby` and `Gateway.DisconnectThenJoin` | `RedisClient.RedisClientService.DisconnectHost` and `Gateway.AppGateway.HandleDisconnectCorrected` |
| overflow-backend/src/app.gateway.ts:260-268 | after the failure response for fewer than 2 players there is no `return`, so the store's startGame runs and gameStartEvent is broadcast | startGame on a lobby with one member (player count 1) | return after the failure response | medium (not executed) | `Gateway.AppGateway.StartGame`, shown by `Gateway.StartWithOnePlayer` | `Gateway.AppGateway.StartGameChecked` |

Both handlers keep the behaviour as written. The corrected variants,
`HandleDisconnectCorrected` and `StartGameChecked`, stand beside them.

## Left out

- Socket.IO transport: rooms, delivery and connection logging. Joins and emits are returned as `Output` records, in order. `handleConnection` is left out: it only logs and sends a fixed debug greeting.
- Redis client plumbing: `createClient`, the callback-to-Promise wrappers, and errors from commands or `multi.exec`. So the `There was an error: ...` responses of createLobby and joinLobby, and the catch branch of startGame, are not modelled.
- The generic wrappers `get`, `set`, `hset`, `rpush`, `lrange`, `getList` and `exists` are not separate members. Their effect on the four modelled key families is written into the methods that use them. `hset` has no caller in the core.
- Keys are modelled per family, not as one string-keyed map. Two effects of raw keys are therefore not captured. One: `game-{c}-players` for code `c` is the same string as `game-{c'}` for code `c' = c + "-players"`, so `gameExists` would see a member list as a lobby. Two: Redis refuses a command on a key of the wrong type (WRONGTYPE).
- Store operations the gateway calls but the wrapper does not define: getNumberOfPlayers, startGame, playCard, drawCards, getGameOfPlayer, getGamePlayerData, getPlayerHand, getHostOfGame and flushAll. Their results are handler parameters. The three that change state are recorded as `Call` outputs. The model assumes none of them changes the four modelled key families.
- `Gateway.AppGateway.constructor`: does not model `flushAll()`. The wrapper does not define it. Instead the constructor requires a store in which every member list belongs to a lobby record.
- Concurrency. Every handler is one sequential step. In particular, handleDisconnect does not await `disconnectPlayer`, so its kickEvent may go out before the deletes; the model puts them in sequence.
- Cards, hands, scores, the card catalog and its migrations, the MongoDB client, module wiring and bootstrap, the HTTP welcome endpoint, and the frontend.
- The `console.log` calls in `lrem` and handleDisconnect.
- JavaScript loose equality and number semantics. The turn loop compares ids as strings, and the player count, card index and number of cards are integers.
