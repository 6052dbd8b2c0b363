/**
 * The game manager (src/game/gameManager.ts): the waiting queue, the active
 * games and the two identity tables, and the operations the socket layer
 * calls on them. The queue and the games table are JavaScript Maps whose
 * order the manager reads (module OrderedMap); the identity tables are Maps
 * whose order nothing reads, modelled as maps. Every game is a GameState
 * object whose fields the operations overwrite.
 */
module GameEngine {
  import opened Wrappers
  import OM = OrderedMap
  import opened GameTypes
  import opened GameRules

  /** `userId` is one of the players of `game` (for a valid game the stored map is its own decoding). */
  ghost predicate HasPlayer(game: GameState, userId: int)
    reads game
  {
    OM.Has(game.playersState, userId)
  }

  /** The position of the last game, in map order, that `userId` plays in. */
  ghost function LastGameWith(games: seq<(string, GameState)>, userId: int): (r: Option<nat>)
    reads set p | p in games :: p.1
    ensures r.Some? ==> r.value < |games| && HasPlayer(games[r.value].1, userId)
    ensures forall j :: 0 <= j < |games| && (r.None? || r.value < j) ==> !HasPlayer(games[j].1, userId)
  {
    if games == [] then None
    else if HasPlayer(games[|games| - 1].1, userId) then Some(|games| - 1)
    else LastGameWith(games[..|games| - 1], userId)
  }

  /**
   * A games table is a Map in which each game is stored under its own id;
   * as ids are distinct keys, no game object is stored twice.
   */
  ghost predicate GamesTable(games: seq<(string, GameState)>) {
    && OM.DistinctKeys(games)
    && (forall i :: 0 <= i < |games| ==> games[i].1.gameId == games[i].0)
  }

  /** Every game of the table is valid. */
  ghost predicate AllValid(games: seq<(string, GameState)>)
    reads set p | p in games :: p.1
  {
    forall i :: 0 <= i < |games| ==> games[i].1.Valid()
  }

  /** Storing a new game under its own id keeps the table a games table, and keeps it valid when the game is. */
  lemma AddedGameKeepsTable(games: seq<(string, GameState)>, game: GameState)
    requires GamesTable(games)
    requires forall i :: 0 <= i < |games| ==> games[i].1 != game
    ensures GamesTable(OM.Set(games, game.gameId, game))
    ensures AllValid(games) && game.Valid() ==> AllValid(OM.Set(games, game.gameId, game))
  {
    var r := OM.Set(games, game.gameId, game);
    if OM.Has(games, game.gameId) {
      var i := OM.Find(games, game.gameId).value;
      assert r == games[i := (game.gameId, game)];
    } else {
      assert r == games + [(game.gameId, game)];
    }
  }

  /** Deleting a game keeps the table a games table, and keeps it valid. */
  lemma {:induction false} DeletedGameKeepsTable(games: seq<(string, GameState)>, gameId: string)
    requires GamesTable(games)
    ensures GamesTable(OM.Delete(games, gameId))
    ensures AllValid(games) ==> AllValid(OM.Delete(games, gameId))
  {
    var r := OM.Delete(games, gameId);
    if OM.Has(games, gameId) {
      var i := OM.Find(games, gameId).value;
      assert forall j :: 0 <= j < |r| ==> r[j] == if j < i then games[j] else games[j + 1];
    }
  }

  /** getGameBySocketId's scan: every game in map order, keeping the last one whose decoded players include the user. */
  method LastGameOf(games: seq<(string, GameState)>, userId: int) returns (r: GameState?)
    requires forall i :: 0 <= i < |games| ==> OM.DistinctKeys(games[i].1.playersState)
    ensures match LastGameWith(games, userId)
      case None => r == null
      case Some(i) => r == games[i].1
  {
    r := null;
    assert games[..0] == [];
    for i := 0 to |games|
      invariant match LastGameWith(games[..i], userId)
        case None => r == null
        case Some(k) => r == games[k].1
    {
      var game := games[i].1;
      var playersMap := StringToMap(game.playersState);
      assert playersMap == game.playersState;
      assert games[..i + 1][..i] == games[..i];
      if OM.Has(playersMap, userId) {
        r := game;
      }
    }
    assert games[..|games|] == games;
  }

  /**
   * The first half of buildDice: false, changing nothing, when the user is
   * not a player of the game; otherwise that player's faces are overwritten
   * in the stored players map and nothing else changes.
   */
  method SetDice(game: GameState, userId: int, diceValues: seq<int>) returns (found: bool)
    requires game.Valid()
    modifies game
    ensures found <==> OM.Has(old(game.playersState), userId)
    ensures !found ==> unchanged(game)
    ensures found ==>
      && game.playersState == OM.Set(old(game.playersState), userId,
           OM.Get(old(game.playersState), userId).value.(diceValues := diceValues))
      && game.currentTurn == old(game.currentTurn)
    ensures game.Valid()
  {
    var mp := StringToMap(game.playersState);
    var playerState := OM.Get(mp, userId);
    if playerState.None? {
      return false;
    }
    StoreDice(game, mp, userId, playerState.value, diceValues);
    return true;
  }

  /** The player's new faces are written into the decoded players map, which is stored back. */
  method StoreDice(game: GameState, mp: seq<(int, PlayerState)>, userId: int, p: PlayerState, diceValues: seq<int>)
    requires game.Valid() && mp == game.playersState && OM.Get(mp, userId) == Some(p)
    modifies game
    ensures game.playersState == OM.Set(old(game.playersState), userId, p.(diceValues := diceValues))
    ensures game.currentTurn == old(game.currentTurn)
    ensures game.Valid()
  {
    NewDiceKeepsValid(mp, userId, diceValues, game.currentTurn);
    game.playersState := MapToString(OM.Set(mp, userId, p.(diceValues := diceValues)));
  }

  /** Overwriting one player's faces keeps a valid players map valid and its turn with a player. */
  lemma NewDiceKeepsValid(ps: seq<(int, PlayerState)>, userId: int, diceValues: seq<int>, turn: int)
    requires PlayersValid(ps) && OM.Has(ps, userId)
    ensures var r := OM.Set(ps, userId, OM.Get(ps, userId).value.(diceValues := diceValues));
      PlayersValid(r) && OM.Has(r, turn) == OM.Has(ps, turn)
  {
    var p := OM.Get(ps, userId).value;
    assert ps[OM.Find(ps, userId).value].1 == p;
    SetPlayerKeepsValid(ps, userId, p.(diceValues := diceValues), turn);
  }

  /**
   * initDice on one game: every player's faces become six zeros in the
   * stored players map; the turn and the players stay, so the game stays
   * valid.
   */
  method ResetGameDice(game: GameState)
    requires game.Valid()
    modifies game
    ensures game.playersState == ResetDice(old(game.playersState))
    ensures game.currentTurn == old(game.currentTurn)
    ensures game.Valid()
  {
    var before := StringToMap(game.playersState);
    var playersState := ResetAllDice(before);
    OM.SameKeysSameFind(playersState, before, game.currentTurn);
    game.playersState := MapToString(playersState);
  }

  /** initDice's loop: each player's faces in turn set to six zeros; the result is ResetDice. */
  method ResetAllDice(ps: seq<(int, PlayerState)>) returns (r: seq<(int, PlayerState)>)
    ensures r == ResetDice(ps)
  {
    r := ps;
    for i := 0 to |r|
      invariant |r| == |ps|
      invariant forall j :: 0 <= j < i ==> r[j] == (ps[j].0, ps[j].1.(diceValues := ZeroDice))
      invariant forall j :: i <= j < |r| ==> r[j] == ps[j]
    {
      var (playerId, player) := r[i];
      r := r[i := (playerId, player.(diceValues := ZeroDice))];
    }
  }

  /**
   * The second half of buildDice: the round is resolved on the stored
   * players map and, when it resolves, its turn is stored; the game stays
   * valid, so the turn stays with one of its players.
   */
  method ResolveRound(game: GameState, pick1: nat, pick2: nat) returns (r: Result<Option<DiceRolledEvent>, Error>)
    requires game.Valid()
    modifies game
    ensures game.playersState == old(game.playersState)
    ensures r == Resolve(game.playersState, old(game.currentTurn), pick1, pick2)
    ensures game.currentTurn == (if r.Success? && r.value.Some? then r.value.value.turn else old(game.currentTurn))
    ensures game.Valid()
  {
    var playersMap := StringToMap(game.playersState);
    ResolveKeepsTurnWithPlayers(playersMap, game.currentTurn, pick1, pick2);
    r := Resolve(playersMap, game.currentTurn, pick1, pick2);
    if r.Success? && r.value.Some? {
      game.currentTurn := r.value.value.turn;
    }
  }

  class GameManager {
    var waitingPlayers: seq<(string, int)>     // socketId -> userId, in order of arrival
    var activeGames: seq<(string, GameState)>  // gameId -> game
    var socketIdMap: map<int, string>          // userId -> socketId
    var userIdMap: map<string, int>            // socketId -> userId

    /** The game objects the manager holds. */
    ghost function Games(): set<GameState>
      reads this
    {
      set p | p in activeGames :: p.1
    }

    /** The game object stored under `gameId`, if any: the frame of the operations on one game. */
    ghost function GameFrame(gameId: string): set<GameState>
      reads this
    {
      match OM.Get(activeGames, gameId)
      case Some(game) => {game}
      case None => {}
    }

    /** The queue is a Map, and the games table holds each game once, under its own id. */
    ghost predicate Valid()
      reads this
    {
      && OM.DistinctKeys(waitingPlayers)
      && GamesTable(activeGames)
    }

    /** Every active game is valid: one or two well-formed players, and the turn held by one of them. */
    ghost predicate GamesValid()
      reads this, Games()
    {
      forall i :: 0 <= i < |activeGames| ==> activeGames[i].1.Valid()
    }

    /** The game stored under `gameId`, if there is one, is valid. */
    ghost predicate GameValid(gameId: string)
      reads this, GameFrame(gameId)
    {
      match OM.Get(activeGames, gameId)
      case Some(game) => game.Valid()
      case None => true
    }

    constructor ()
      ensures Valid() && GamesValid()
      ensures waitingPlayers == [] && activeGames == [] && socketIdMap == map[] && userIdMap == map[]
    {
      waitingPlayers := [];
      activeGames := [];
      socketIdMap := map[];
      userIdMap := map[];
    }

    // ------------------------------------------------------------ queries

    /** getGameById: the game stored under `gameId`, or null. */
    function GetGameById(gameId: string): (r: GameState?)
      reads this
      ensures r == null <==> !OM.Has(activeGames, gameId)
      ensures r != null ==> (gameId, r) in activeGames && r in Games() && r in GameFrame(gameId)
    {
      match OM.Get(activeGames, gameId)
      case Some(game) => game
      case None => null
    }

    /**
     * getSocketId: null for an unknown game; otherwise the sockets bound to
     * the game's players, one per bound player, skipping unbound players.
     */
    function GetSocketId(gameId: string): (r: Option<seq<string>>)
      reads this, Games()
      ensures r.None? <==> !OM.Has(activeGames, gameId)
      ensures r.Some? ==>
        var players := StringToMap(GetGameById(gameId).playersState);
        && |r.value| <= |players|
        && forall s :: s in r.value <==> exists u :: u in OM.Keys(players) && u in socketIdMap && socketIdMap[u] == s
    {
      var game := GetGameById(gameId);
      if game == null then None
      else Some(SocketsOf(OM.Keys(StringToMap(game.playersState)), socketIdMap))
    }

    /**
     * getGameBySocketId: null when the socket has no user or user id 0 (the
     * `!userId` test); otherwise the LAST game, in map order, whose players
     * include that user (LastGameWith), or null when there is none.
     */
    method GetGameBySocketId(socketId: string) returns (r: GameState?)
      requires Valid() && GamesValid()
      ensures if socketId !in userIdMap || userIdMap[socketId] == 0 then r == null
        else match LastGameWith(activeGames, userIdMap[socketId])
          case None => r == null
          case Some(i) => r == activeGames[i].1
    {
      if socketId !in userIdMap || userIdMap[socketId] == 0 {
        return null;
      }
      r := LastGameOf(activeGames, userIdMap[socketId]);
    }

    // ------------------------------------------------------------ joining and pairing

    /**
     * The tables after the two oldest entries of the queue `w` were paired:
     * both left the queue, both were bound both ways, and either the new
     * game is stored under `gameId` or the profile fetch failed and no game
     * was added.
     */
    ghost predicate Paired(w: seq<(string, int)>, sm: map<int, string>, um: map<string, int>,
                           games: seq<(string, GameState)>, gameId: string, profiles: map<int, Profile>,
                           r: Result<Option<string>, Error>)
      requires |w| >= 2
      reads this, Games()
    {
      && waitingPlayers == w[2..]
      && (socketIdMap, userIdMap) == BindPlayers(sm, um, w[..2])
      && Started(games, gameId, w[0].1, w[1].1, profiles, r)
    }

    /**
     * The games table after a game of `userId1` and `userId2` was set up
     * from `games`: the new game is stored under `gameId` with the players
     * map of InitPlayers and the first user's turn, or the profile fetch
     * failed and no game was added.
     */
    ghost predicate Started(games: seq<(string, GameState)>, gameId: string, userId1: int, userId2: int,
                            profiles: map<int, Profile>, r: Result<Option<string>, Error>)
      reads this, Games()
    {
      match InitPlayers(userId1, userId2, profiles)
      case Failure(e) => r == Failure(e) && activeGames == games
      case Success(players) =>
        && r == Success(Some(gameId))
        && OM.Has(activeGames, gameId)
        && var game := OM.Get(activeGames, gameId).value;
           && activeGames == OM.Set(games, gameId, game)
           && game.gameId == gameId && game.playersState == players && game.currentTurn == userId1
    }

    /**
     * addPlayer: a socket already waiting is refused with null and nothing
     * changes; otherwise it joins the end of the queue and pairing is tried.
     * Between calls the queue never holds more than one socket.
     */
    method AddPlayer(socketId: string, userId: int, gameId: string, profiles: map<int, Profile>)
      returns (r: Result<Option<string>, Error>)
      requires Valid() && GamesValid()
      modifies this
      ensures Valid() && GamesValid()
      ensures OM.Has(old(waitingPlayers), socketId) ==> r == Success(None) && unchanged(this)
      ensures !OM.Has(old(waitingPlayers), socketId) ==>
        var w := old(waitingPlayers) + [(socketId, userId)];
        if |w| < 2 then
          && r == Success(None) && waitingPlayers == w
          && socketIdMap == old(socketIdMap) && userIdMap == old(userIdMap) && activeGames == old(activeGames)
        else Paired(w, old(socketIdMap), old(userIdMap), old(activeGames), gameId, profiles, r)
      ensures r.Success? && r.value.Some? ==> fresh(GetGameById(gameId))
      ensures |old(waitingPlayers)| <= 1 ==> |waitingPlayers| <= 1
    {
      if OM.Has(waitingPlayers, socketId) {
        return Success(None);
      }
      waitingPlayers := OM.Set(waitingPlayers, socketId, userId);
      r := TryStartGame(gameId, profiles);
    }

    /**
     * tryStartGame: with fewer than two waiting, null and nothing changes.
     * Otherwise the two oldest entries leave the queue and are bound in both
     * identity tables, and only then are the profiles fetched: a missing
     * profile fails with the bindings in place and no game.
     */
    method TryStartGame(gameId: string, profiles: map<int, Profile>) returns (r: Result<Option<string>, Error>)
      requires Valid() && GamesValid()
      modifies this
      ensures |old(waitingPlayers)| < 2 ==> r == Success(None) && unchanged(this)
      ensures |old(waitingPlayers)| >= 2 ==>
        Paired(old(waitingPlayers), old(socketIdMap), old(userIdMap), old(activeGames), gameId, profiles, r)
      ensures r.Success? && r.value.Some? ==> fresh(GetGameById(gameId))
      ensures Valid() && GamesValid()
    {
      if |waitingPlayers| < 2 {
        return Success(None);
      }
      var players := waitingPlayers[..2];
      BindQueueHead(players);
      r := StartGame(gameId, players[0], players[1], profiles);
    }

    /** The rest of tryStartGame: initGameState, then the new game stored under its id. */
    method StartGame(gameId: string, player1: (string, int), player2: (string, int), profiles: map<int, Profile>)
      returns (r: Result<Option<string>, Error>)
      requires Valid() && GamesValid()
      modifies this
      ensures Started(old(activeGames), gameId, player1.1, player2.1, profiles, r)
      ensures waitingPlayers == old(waitingPlayers) && socketIdMap == old(socketIdMap) && userIdMap == old(userIdMap)
      ensures r.Success? && r.value.Some? ==> fresh(GetGameById(gameId))
      ensures Valid() && GamesValid()
    {
      var created := InitGameState(gameId, player1, player2, profiles);
      match created
      case Failure(e) =>
        r := Failure(e);
      case Success(game) =>
        AddGame(game);
        r := Success(Some(gameId));
        assert GetGameById(gameId) == game;
    }

    /** `activeGames.set(gameId, game)` for a new, valid game stored under its own id. */
    method AddGame(game: GameState)
      requires Valid() && GamesValid() && game.Valid() && game !in Games()
      modifies this
      ensures activeGames == OM.Set(old(activeGames), game.gameId, game)
      ensures OM.Get(activeGames, game.gameId) == Some(game)
      ensures waitingPlayers == old(waitingPlayers) && socketIdMap == old(socketIdMap) && userIdMap == old(userIdMap)
      ensures Valid() && GamesValid()
    {
      AddedGameKeepsTable(activeGames, game);
      activeGames := OM.Set(activeGames, game.gameId, game);
    }

    /** tryStartGame's loop: the two oldest sockets leave the queue and are bound to their users both ways, in order. */
    method BindQueueHead(players: seq<(string, int)>)
      requires Valid() && GamesValid() && |waitingPlayers| >= 2 && players == waitingPlayers[..2]
      modifies this
      ensures waitingPlayers == old(waitingPlayers)[2..]
      ensures (socketIdMap, userIdMap) == BindPlayers(old(socketIdMap), old(userIdMap), players)
      ensures activeGames == old(activeGames)
      ensures Valid() && GamesValid()
    {
      ghost var w0, sm0, um0 := waitingPlayers, socketIdMap, userIdMap;
      for k := 0 to 2
        invariant waitingPlayers == w0[k..]
        invariant BindPlayers(socketIdMap, userIdMap, players[k..]) == BindPlayers(sm0, um0, players)
        invariant activeGames == old(activeGames) && Valid()
      {
        var (socketId, userId) := players[k];
        OM.FindAt(waitingPlayers, socketId, 0);
        assert waitingPlayers[..0] + waitingPlayers[1..] == w0[k + 1..];
        assert players[k..][1..] == players[k + 1..];
        BindPlayer(socketId, userId);
      }
      assert players[2..] == [];
    }

    /** One pass of tryStartGame's loop: the socket leaves the queue and is bound to its user both ways. */
    method BindPlayer(socketId: string, userId: int)
      requires Valid()
      modifies this
      ensures waitingPlayers == OM.Delete(old(waitingPlayers), socketId)
      ensures socketIdMap == old(socketIdMap)[userId := socketId]
      ensures userIdMap == old(userIdMap)[socketId := userId]
      ensures activeGames == old(activeGames)
      ensures Valid()
    {
      waitingPlayers := OM.Delete(waitingPlayers, socketId);
      socketIdMap := socketIdMap[userId := socketId];
      userIdMap := userIdMap[socketId := userId];
      assert OM.DistinctKeys(waitingPlayers);
      assert GamesTable(activeGames);
    }

    /**
     * initGameState: a new game object whose players map is InitPlayers of
     * the two entries and whose turn is the first entry's user.
     */
    method InitGameState(gameId: string, player1: (string, int), player2: (string, int), profiles: map<int, Profile>)
      returns (r: Result<GameState, Error>)
      ensures r.Failure? ==> InitPlayers(player1.1, player2.1, profiles) == Failure(r.error)
      ensures r.Success? ==>
        && fresh(r.value)
        && InitPlayers(player1.1, player2.1, profiles) == Success(r.value.playersState)
        && r.value.gameId == gameId
        && r.value.currentTurn == player1.1
        && r.value.Valid()
    {
      match InitPlayers(player1.1, player2.1, profiles)
      case Failure(e) =>
        r := Failure(e);
      case Success(players) =>
        var game := new GameState(gameId, players, player1.1);
        r := Success(game);
    }

    // ------------------------------------------------------------ dice

    /**
     * buildDice: fails on an unknown game or player, changing nothing.
     * Otherwise it overwrites that player's faces (and nothing else), then
     * resolves the round on the stored players map; when the round resolves,
     * the new turn is stored and returned as the event's turn. The game
     * stays valid, so the turn stays with one of its players.
     */
    method BuildDice(gameId: string, userId: int, diceValues: seq<int>, pick1: nat, pick2: nat)
      returns (r: Result<Option<DiceRolledEvent>, Error>)
      requires Valid() && GameValid(gameId)
      modifies GameFrame(gameId)
      ensures !OM.Has(activeGames, gameId) ==> r == Failure(GameNotFound(gameId))
      ensures OM.Has(activeGames, gameId) ==>
        var game := GetGameById(gameId);
        var before := old(game.playersState);
        if !OM.Has(before, userId) then r == Failure(PlayerNotFound(userId)) && unchanged(game)
        else
          && game.playersState == OM.Set(before, userId, OM.Get(before, userId).value.(diceValues := diceValues))
          && r == Resolve(game.playersState, old(game.currentTurn), pick1, pick2)
          && game.currentTurn == (if r.Success? && r.value.Some? then r.value.value.turn else old(game.currentTurn))
      ensures GameValid(gameId)
    {
      var game := GetGameById(gameId);
      if game == null {
        return Failure(GameNotFound(gameId));
      }
      var found := SetDice(game, userId, diceValues);
      if !found {
        return Failure(PlayerNotFound(userId));
      }
      r := ResolveRound(game, pick1, pick2);
    }

    /** initDice: every player's faces of the game back to six zeros; the game stays valid. */
    method InitDice(gameId: string)
      requires Valid() && OM.Has(activeGames, gameId) && GameValid(gameId)
      modifies GameFrame(gameId)
      ensures var game := GetGameById(gameId);
        && game.playersState == ResetDice(old(game.playersState))
        && game.currentTurn == old(game.currentTurn)
      ensures GameValid(gameId)
    {
      var game := GetGameById(gameId);
      ResetGameDice(game);
    }

    // ------------------------------------------------------------ movement and end of game

    /**
     * updAnimation: fails when the animation's user is not a player of the
     * game, changing nothing. Otherwise exactly the listed pawns of that
     * player move to `toNode`; `fromNode` is not looked at. The game stays
     * valid.
     */
    method UpdAnimation(gameId: string, anim: Animation) returns (r: Outcome<Error>)
      requires Valid() && OM.Has(activeGames, gameId) && GameValid(gameId)
      requires OM.Has(GetGameById(gameId).playersState, anim.userId) ==>
        forall k :: 0 <= k < |anim.pawnsIndex| ==> 0 <= anim.pawnsIndex[k] < PawnCount
      modifies GameFrame(gameId)
      ensures var game := GetGameById(gameId);
        var before := old(game.playersState);
        && game.currentTurn == old(game.currentTurn)
        && if !OM.Has(before, anim.userId) then r == Fail(PlayerNotFound(anim.userId)) && game.playersState == before
           else
             && r == Pass
             && var player := OM.Get(before, anim.userId).value;
                game.playersState == OM.Set(before, anim.userId,
                  player.(pawnsState := MovedPawns(player.pawnsState, anim.pawnsIndex, anim.toNode)))
      ensures GameValid(gameId)
    {
      var game := GetGameById(gameId);
      assert game.Valid();
      var playersState := StringToMap(game.playersState);
      assert playersState == game.playersState;
      var playerState := OM.Get(playersState, anim.userId);
      if playerState.None? {
        return Fail(PlayerNotFound(anim.userId));
      }
      assert PlayerValid(playerState.value);
      var pawns := MovePawns(playerState.value.pawnsState, anim.pawnsIndex, anim.toNode);
      MovedPawnsKeepPlayer(playerState.value, anim.pawnsIndex, anim.toNode);
      SetPlayerKeepsValid(playersState, anim.userId, playerState.value.(pawnsState := pawns), game.currentTurn);
      playersState := OM.Set(playersState, anim.userId, playerState.value.(pawnsState := pawns));
      game.playersState := MapToString(playersState);
      assert game.Valid();
      r := Pass;
    }

    /** updAnimation's loop: each listed pawn in turn is set to `to`; the result is MovedPawns. */
    static method MovePawns(pawns: seq<PawnState>, pawnsIndex: seq<int>, to: PawnPosition) returns (moved: seq<PawnState>)
      requires forall k :: 0 <= k < |pawnsIndex| ==> 0 <= pawnsIndex[k] < |pawns|
      ensures moved == MovedPawns(pawns, pawnsIndex, to)
    {
      moved := pawns;
      assert pawnsIndex[..0] == [];
      for k := 0 to |pawnsIndex|
        invariant moved == MovedPawns(pawns, pawnsIndex[..k], to)
      {
        var pawnIndex := pawnsIndex[k];
        moved := moved[pawnIndex := moved[pawnIndex].(position := to)];
        assert forall i :: i in pawnsIndex[..k + 1] <==> i in pawnsIndex[..k] || i == pawnIndex by {
          assert pawnsIndex[..k + 1] == pawnsIndex[..k] + [pawnIndex];
        }
      }
      assert pawnsIndex[..|pawnsIndex|] == pawnsIndex;
    }

    /**
     * updAnimationEnd: fails on an unknown game or player; never changes
     * anything (no modifies clause: the zeroed dice go to a decoded copy
     * that is dropped). Reports checkGameEnd's winner when every stored
     * player's dice are the six zeros, and null otherwise.
     */
    method UpdAnimationEnd(gameId: string, userId: int) returns (r: Result<Option<int>, Error>)
      requires Valid() && GameValid(gameId)
      ensures !OM.Has(activeGames, gameId) ==> r == Failure(GameNotFound(gameId))
      ensures OM.Has(activeGames, gameId) ==>
        var players := GetGameById(gameId).playersState;
        && (!OM.Has(players, userId) ==> r == Failure(PlayerNotFound(userId)))
        && (OM.Has(players, userId) && AllZero(players) ==> r == Success(FirstFinished(players)))
        && (OM.Has(players, userId) && !AllZero(players) ==> r == Success(None))
    {
      var game := GetGameById(gameId);
      if game == null {
        return Failure(GameNotFound(gameId));
      }
      var playerState := OM.Get(StringToMap(game.playersState), userId);
      if playerState.None? {
        return Failure(PlayerNotFound(userId));
      }
      var zeroed := playerState.value.(diceValues := ZeroDice);  // never stored
      var allZero := AllZero(StringToMap(game.playersState));
      if allZero {
        var winner := CheckGameEnd(gameId);
        return Success(winner);
      }
      return Success(None);
    }

    /** checkGameEnd: the first player, in map order, whose pawns are all finished. */
    method CheckGameEnd(gameId: string) returns (winner: Option<int>)
      requires Valid() && OM.Has(activeGames, gameId) && GameValid(gameId)
      ensures winner == FirstFinished(GetGameById(gameId).playersState)
    {
      var game := GetGameById(gameId);
      var entries := StringToMap(game.playersState);
      assert entries == game.playersState;
      winner := FirstFinishedOf(entries);
    }

    /** checkGameEnd's loop: the players in map order, stopping at the first whose pawns are all finished. */
    static method FirstFinishedOf(entries: seq<(int, PlayerState)>) returns (winner: Option<int>)
      ensures winner == FirstFinished(entries)
    {
      for i := 0 to |entries|
        invariant forall j :: 0 <= j < i ==> !AllFinished(entries[j].1)
      {
        var (userId, playerState) := entries[i];
        if AllFinished(playerState) {
          FirstFinishedAt(entries, i);
          return Some(userId);
        }
      }
      return None;
    }

    // ------------------------------------------------------------ teardown

    /**
     * removeGame: false and nothing changed for an unknown game. Otherwise
     * every player of the game loses its socket binding and the reverse
     * binding of that socket, the game is deleted, and the queue and the
     * other games stay as they were.
     */
    method RemoveGame(gameId: string) returns (removed: bool)
      requires Valid() && GamesValid()
      modifies this
      ensures removed <==> OM.Has(old(activeGames), gameId)
      ensures !removed ==> unchanged(this)
      ensures removed ==>
        var players := OM.Keys(old(GetGameById(gameId).playersState));
        && activeGames == OM.Delete(old(activeGames), gameId)
        && waitingPlayers == old(waitingPlayers)
        && socketIdMap == old(socketIdMap) - Members(players)
        && userIdMap == old(userIdMap) - BoundSockets(old(socketIdMap), players)
      ensures Valid() && GamesValid()
    {
      var game := GetGameById(gameId);
      if game == null {
        return false;
      }
      assert game.Valid();
      var userIds := OM.Keys(StringToMap(game.playersState));
      assert userIds == OM.Keys(game.playersState);
      UnbindUsers(userIds);
      DeleteGame(gameId);
      return true;
    }

    /** `activeGames.delete(gameId)`: the other games keep their order and stay valid. */
    method DeleteGame(gameId: string)
      requires Valid() && GamesValid()
      modifies this
      ensures activeGames == OM.Delete(old(activeGames), gameId)
      ensures waitingPlayers == old(waitingPlayers) && socketIdMap == old(socketIdMap) && userIdMap == old(userIdMap)
      ensures Valid() && GamesValid()
    {
      DeletedGameKeepsTable(activeGames, gameId);
      activeGames := OM.Delete(activeGames, gameId);
    }

    /** removeGame's loop: for each user in order, the reverse binding of its (non-empty) socket goes, then its own binding. */
    method UnbindUsers(userIds: seq<int>)
      requires Valid() && GamesValid()
      modifies this
      ensures socketIdMap == old(socketIdMap) - Members(userIds)
      ensures userIdMap == old(userIdMap) - BoundSockets(old(socketIdMap), userIds)
      ensures waitingPlayers == old(waitingPlayers) && activeGames == old(activeGames)
      ensures Valid() && GamesValid()
    {
      UnbindClears(socketIdMap, userIdMap, userIds);
      for k := 0 to |userIds|
        invariant Unbind(socketIdMap, userIdMap, userIds[k..]) == Unbind(old(socketIdMap), old(userIdMap), userIds)
        invariant waitingPlayers == old(waitingPlayers) && activeGames == old(activeGames)
      {
        var userId := userIds[k];
        assert userIds[k..][1..] == userIds[k + 1..];
        assert (socketIdMap - {userId}, if userId in socketIdMap && socketIdMap[userId] != "" then userIdMap - {socketIdMap[userId]} else userIdMap)
          == UnbindUser(socketIdMap, userIdMap, userId);
        if userId in socketIdMap && socketIdMap[userId] != "" {
          userIdMap := userIdMap - {socketIdMap[userId]};
        }
        socketIdMap := socketIdMap - {userId};
      }
    }
  }
}
