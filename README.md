# Dice-match game manager in Dafny

This project models the in-memory engine of the dice-match server, a
two-player pawn race game. Players join a waiting queue. The two oldest
waiting sockets are paired into a game. Each player builds a six-faced die
and a roll decides who takes the turn. Pawns move from "ready" along board
nodes to "finished", and the first player whose four pawns are finished
wins.

The engine is the `GameManager` class of `src/game/gameManager.ts`, and it
holds four tables:

- `waitingPlayers` is the queue of waiting players, from socket id to user
  id, in order of arrival.
- `activeGames` maps each game id to its `GameState`.
- `socketIdMap` binds each user id to a socket id.
- `userIdMap` binds each socket id to a user id.

The model follows the source's own form:

- `GameManager` is a Dafny class with these four fields, and its methods
  update them.
- Each game is a `GameState` object. Its `playersState` and `currentTurn`
  fields are overwritten in place.
- Every loop of the source is a `while`/`for` loop, and each is proved
  against a specification function.

Modules:

- `Wrappers`: `Option`, `Result` and `Outcome`.
- `OrderedMap`: a JavaScript `Map` as its insertion-ordered list of entries
  with distinct keys. It covers `get`, `has`, `keys`, `set` (which
  overwrites in place or appends), `delete` (which keeps the order of the
  rest) and `new Map(entries)` (a replay of `set` in which a later entry
  wins).
- `GameTypes`: the types of `src/types/game.ts`, the validity of a player
  state and of a players map, and the codec. `playersState` is kept as the
  entries list that the JSON text encodes. `MapToString` is that list
  itself. `StringToMap` is `new Map` of the list. The round trip is
  `CodecRoundTrip`.
- `GameRules`: the value-level rules:
  - the initial player states;
  - the draw of rolls and the turn rule, including the tie rule
    `userId1 + userId2 - currentTurn`;
  - the dice reset;
  - pawn moves;
  - win detection;
  - the updates of the identity tables on pairing and teardown.
- `GameEngine`: the `GameManager` class and the per-game methods that
  mutate a `GameState`.

The manager's invariant comes in three parts:

- `GameManager.Valid` holds when the queue is a Map and each game is stored
  under its own id.
- `GameManager.GamesValid` holds when every game has one or two valid
  players and its turn is held by one of them.
- `GameManager.GameValid` restricts `GamesValid` to one game.

Every operation keeps these invariants.

The model follows the code as written, including these behaviours:

- `updAnimationEnd` zeroes the dice on a decoded copy that is never stored.
  So it never changes the game, and its all-zero test reads the stored
  dice.
- `tryStartGame` removes the two oldest entries from the queue and binds
  them before it fetches the profiles. A missing profile therefore fails
  with the bindings still in place and no game added.
- `removeGame` deletes a user's socket binding but skips the reverse
  binding when the socket id is the empty string, because of the
  `if(socketId)` test.
- `getGameBySocketId` treats user id 0 as absent, because of the `!userId`
  test. It returns the last matching game in map order.
- A user paired with themself gets a players map with one entry, the red
  one. `buildDice` on such a game stores the dice and then fails where the
  source fails to destructure two entries. In the model that failure is
  `MissingSecondPlayer`.
- `buildDice` never writes `diceResult`.

## Model

| member | source | states |
|---|---|---|
| OrderedMap.Find | src/game/gameManager.ts:43 | the position found holds the key and no earlier entry does; None only when no entry holds the key |
| OrderedMap.Get | src/game/gameManager.ts:25 | `get` yields a value exactly when `has` holds, and that value is stored under the key |
| OrderedMap.Keys | src/game/gameManager.ts:27 | `keys()` lists one key per entry, and a key is listed exactly when the map has it |
| OrderedMap.KeysDistinct | src/game/gameManager.ts:27 | the keys of a Map are listed once each |
| OrderedMap.Set | src/game/gameManager.ts:57 | `set` makes the key map to the value and leaves every other key's value alone. A present key keeps its position and a new key is appended. The keys stay distinct |
| OrderedMap.Delete | src/game/gameManager.ts:252 | `delete` removes the key, leaves every other key's value alone, keeps the order of the rest, and is the identity on an absent key |
| OrderedMap.SetAll | src/types/game.ts:156-159 | replaying `set` over entries keeps the keys distinct |
| OrderedMap.FromEntries | src/types/game.ts:156-159 | `new Map(entries)` always has distinct keys |
| OrderedMap.SetAllFresh | src/types/game.ts:156-159 | replaying entries whose keys are all new appends them in order |
| OrderedMap.FromEntriesOfMap | src/types/game.ts:151-159 | `new Map` of a Map's own entries gives back the same entries in the same order |
| OrderedMap.FromTwoEntries | src/game/gameManager.ts:100-103 | a map built from two entries has both entries in order when the keys differ, and one entry with the second value when they are equal |
| OrderedMap.SameKeysSameFind | src/game/gameManager.ts:201-206 | two maps with the same keys in the same order find every key at the same position |
| GameTypes.ZeroDiceIsTheOnlyZeroDice | src/game/gameManager.ts:166-170 | the "not rolled" test holds of exactly one face list, the six zeros |
| GameTypes.SetPlayerKeepsValid | src/types/game.ts:31-39 | overwriting a player with a valid state of the same colour keeps the players map valid, with the same keys and the same turn holder |
| GameTypes.GameState.constructor | src/types/game.ts:99-103 | a game holds exactly the given id, encoded players map and turn |
| GameTypes.CodecRoundTrip | src/types/game.ts:151-159 | decoding the encoding of a Map gives back the same entries in the same order |
| GameTypes.MapToString | src/types/game.ts:151-154 | the encoding lists the map's entries, one per entry, in insertion order; CodecRoundTrip is its inverse |
| GameTypes.StringToMap | src/types/game.ts:156-159 | decoding always yields a Map, and a list with distinct keys decodes to itself |
| GameRules.InitPlayerState | src/game/gameManager.ts:107-132 | fails with UserNotFound exactly when there is no profile. Otherwise it gives the profile's name and picture, the colour, four ready pawns in slot order, six zero faces and zero bonus, and the state is valid |
| GameRules.InitPlayers | src/game/gameManager.ts:95-106 | succeeds exactly when both profiles exist, and otherwise fails on the first missing one. The map is valid, holds the first user, and is blue then red (one red entry for a self-pair) |
| GameRules.RandVal | src/game/gameManager.ts:195-198 | the roll is defined exactly when the face list is non-empty, and it is then one of the faces; an in-range draw picks the face at that index |
| GameRules.NextTurn | src/game/gameManager.ts:176-180 | the strictly higher roll takes the turn. On a tie the turn goes to the other player, and it stays with the two players |
| GameRules.TieTwiceRestoresTurn | src/game/gameManager.ts:179 | two ties in a row hand the turn back to its previous holder |
| GameRules.Resolve | src/game/gameManager.ts:164-193 | pending exactly when some player's dice are all zero, and a failure exactly when a rolled map has one entry. Otherwise the event carries both players' faces and rolls in map order and NextTurn's turn, and each player with a non-empty face list rolls one of its faces |
| GameRules.HigherFacesWin | src/game/gameManager.ts:173-177 | whatever is drawn, a first player each of whose faces beats each face of the second takes the turn |
| GameRules.ResolveKeepsTurnWithPlayers | src/game/gameManager.ts:173-180 | on a valid map whose turn is held by a player, a resolved round gives the turn to a player |
| GameRules.ResetDice | src/game/gameManager.ts:199-207 | every player's faces become six zeros, with the same keys in the same order, nothing else changed, and validity kept |
| GameRules.MovedPawns | src/game/gameManager.ts:214-216 | exactly the listed slots move to the target, the other pawns are untouched, and no pawn changes slot or colour |
| GameRules.MovedPawnsKeepPlayer | src/types/game.ts:25-39 | moving pawns keeps a player valid |
| GameRules.FirstFinished | src/game/gameManager.ts:234-241 | None exactly when no player has all pawns finished. Otherwise it is the user at the first position whose pawns are all finished |
| GameRules.FirstFinishedAt | src/game/gameManager.ts:236-239 | the winner is the user at the first finished position |
| GameRules.SocketsOf | src/game/gameManager.ts:27-30 | at most one socket per user, and a socket is listed exactly when some listed user is bound to it |
| GameRules.BindTwo | src/game/gameManager.ts:68-72 | pairing binds both users and both sockets both ways, with the second entry winning on a shared id, and leaves every other binding unchanged |
| GameRules.UnbindUser | src/game/gameManager.ts:247-251 | one pass drops the user's binding and the reverse binding of its non-empty socket, and leaves every other binding unchanged |
| GameRules.Unbind | src/game/gameManager.ts:247-251 | the loop only removes bindings |
| GameRules.UnbindClears | src/game/gameManager.ts:243-255 | after the loop, exactly the game's users lose their socket bindings and exactly their non-empty sockets lose their user bindings |
| GameEngine.LastGameWith | src/game/gameManager.ts:40-47 | the found game has the user, and no later game does; None when no game has the user |
| GameEngine.AddedGameKeepsTable | src/game/gameManager.ts:78 | storing a new valid game under its own id keeps the table keyed by game id and every game valid |
| GameEngine.DeletedGameKeepsTable | src/game/gameManager.ts:252 | deleting a game keeps the table keyed by game id and every game valid |
| GameEngine.LastGameOf | src/game/gameManager.ts:40-47 | the scan returns the last game in map order that has the user, or null |
| GameEngine.SetDice | src/game/gameManager.ts:157-163 | fails and changes nothing exactly when the user is not a player. Otherwise only that player's faces are overwritten, the turn stays, and the game stays valid |
| GameEngine.StoreDice | src/game/gameManager.ts:162-163 | the new faces are set on the decoded map, which is stored back, and the game stays valid |
| GameEngine.NewDiceKeepsValid | src/game/gameManager.ts:162-163 | overwriting one player's faces keeps a valid map valid, with the same turn holder |
| GameEngine.ResetGameDice | src/game/gameManager.ts:199-207 | the stored map becomes ResetDice of itself, the turn stays, and the game stays valid |
| GameEngine.ResetAllDice | src/game/gameManager.ts:202-204 | the loop's result is ResetDice |
| GameEngine.ResolveRound | src/game/gameManager.ts:164-193 | the result is Resolve of the stored map. A resolved turn is stored in the game, and the turn stays with a player |
| GameEngine.GameManager.constructor | src/game/gameManager.ts:15-18 | all four tables start empty, and the manager is valid |
| GameEngine.GameManager.GetGameById | src/game/gameManager.ts:33-35 | null exactly when no game has the id. Otherwise it is the game stored under the id |
| GameEngine.GameManager.GetSocketId | src/game/gameManager.ts:24-31 | null exactly for an unknown game. Otherwise it holds at most one socket per player, and a socket exactly when it is bound to a player of the game |
| GameEngine.GameManager.GetGameBySocketId | src/game/gameManager.ts:37-48 | null for an unbound socket or user id 0. Otherwise it is the last game in map order that has the user, or null |
| GameEngine.GameManager.AddPlayer | src/game/gameManager.ts:52-61 | a socket that is already waiting gets null and nothing changes. Otherwise it is queued last and pairing is tried. A queue of at most one stays at most one |
| GameEngine.GameManager.TryStartGame | src/game/gameManager.ts:62-89 | with fewer than two waiting, null and nothing changes. Otherwise the two oldest leave the queue and are bound both ways, then the game from InitPlayers is stored with the first user's turn, or the profile failure is returned with no game |
| GameEngine.GameManager.StartGame | src/game/gameManager.ts:75-82 | the new game is stored under its id with InitPlayers' map and the first user's turn, or the failure is returned. The queue and the bindings are unchanged |
| GameEngine.GameManager.AddGame | src/game/gameManager.ts:78 | `activeGames.set` of the new game, with the other tables unchanged and the invariants kept |
| GameEngine.GameManager.BindQueueHead | src/game/gameManager.ts:65-72 | the two oldest entries leave the queue and are bound both ways in order. The games are unchanged |
| GameEngine.GameManager.BindPlayer | src/game/gameManager.ts:68-72 | the socket leaves the queue and is bound to its user both ways |
| GameEngine.GameManager.InitGameState | src/game/gameManager.ts:95-106 | a new game with the given id, InitPlayers' map and the first user's turn, and valid; or InitPlayers' failure |
| GameEngine.GameManager.BuildDice | src/game/gameManager.ts:152-194 | fails on an unknown game or player and changes nothing. Otherwise only that player's faces change, and the result is Resolve of the new map, so each roll is one of the player's faces when it has any. A resolved turn is stored, and the game stays valid |
| GameEngine.GameManager.InitDice | src/game/gameManager.ts:199-207 | every player's faces become six zeros, the turn stays, and the game stays valid |
| GameEngine.GameManager.UpdAnimation | src/game/gameManager.ts:209-218 | fails for a non-player and changes nothing. Otherwise exactly the listed pawns of that player move, nothing else changes, and the game stays valid |
| GameEngine.GameManager.MovePawns | src/game/gameManager.ts:214-216 | the loop's result is MovedPawns |
| GameEngine.GameManager.UpdAnimationEnd | src/game/gameManager.ts:220-233 | fails on an unknown game or player and never changes anything. When every stored player's dice are all zero it gives checkGameEnd's winner, and otherwise null |
| GameEngine.GameManager.CheckGameEnd | src/game/gameManager.ts:234-241 | the winner is FirstFinished of the stored map |
| GameEngine.GameManager.FirstFinishedOf | src/game/gameManager.ts:236-240 | the loop returns FirstFinished |
| GameEngine.GameManager.RemoveGame | src/game/gameManager.ts:243-259 | false and nothing changed for an unknown game. Otherwise the game is deleted, its players and their non-empty sockets are unbound, the queue is unchanged, and the invariants are kept |
| GameEngine.GameManager.DeleteGame | src/game/gameManager.ts:252 | `activeGames.delete`, with the other tables unchanged and the invariants kept |
| GameEngine.GameManager.UnbindUsers | src/game/gameManager.ts:247-251 | exactly the listed users and their non-empty sockets lose their bindings, and the games and the queue are unchanged |

## Left out

- Profiles are a `map<int, Profile>` parameter in place of the database lookup in `initPlayerState`, and the awaits are sequential calls.
- The random parts are parameters:
  - the game id replaces `generateGameId`;
  - two natural numbers `pick1` and `pick2` replace `Math.random`. The face drawn is the one at `pick % |faces|`, so every index of a non-empty face list, and only those, can be drawn. The probability distribution is not modelled.
- JavaScript numbers are Dafny's unbounded integers:
  - user ids are the integer keys of the user store;
  - dice faces, rolls, bonus and board nodes are modelled as integers.
  
  Non-integer, NaN or `null` faces that a client could send are not modelled, and neither are JavaScript's comparisons on them.
- JSON text is not modelled. The codec works on the list of entries that the text encodes, so `MapToString` is the identity on that list and states nothing of its own.
- Logging and the commented-out `removePlayer` are left out.
- The board geometry types `Node`, `Path` and `Direction` are left out.
- `socketHandler.ts`, `index.ts` and `socket.ts` are not part of this model.
- `socketIdMap` and `userIdMap` are Dafny maps, because nothing reads their insertion order. The order of their entries is not modelled.
- Where the source dereferences a game with `!`, the model has a `requires` that the game exists. This covers `initDice`, `updAnimation` and `checkGameEnd`.
- When the animation's user is a player of the game, a pawn index out of range crashes the source; the model requires the indices in range in that case only.
- Exceptions are modelled as `Result` or `Outcome` failures.
- GameRules.BindPlayers: states no contract of its own. What it computes for a pair is stated by `GameRules.BindTwo`.
