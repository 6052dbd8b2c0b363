/**
 * The rules the game manager applies to one game's values: building the
 * players of a new game, drawing the rolls and arbitrating the turn,
 * resetting dice, moving pawns, detecting a winner, and the updates of the
 * identity tables on pairing and teardown (src/game/gameManager.ts).
 */
module GameRules {
  import opened Wrappers
  import OM = OrderedMap
  import opened GameTypes

  /** The errors the game manager throws. */
  datatype Error =
    | GameNotFound(gameId: string)    // no active game under that id
    | PlayerNotFound(userId: int)     // the user id is not a player of the game
    | UserNotFound(userId: int)       // no profile row for a user being paired
    | MissingSecondPlayer             // a one-player map destructured as two entries

  /** A user's profile as the user store returns it. */
  datatype Profile = Profile(username: string, profilePicture: Option<string>)

  // ---------------------------------------------------------------- new game

  /**
   * initPlayerState: the state of a player who has just been paired, built
   * from the user's profile; fails when the user has no profile.
   */
  function InitPlayerState(userId: int, color: Color, profiles: map<int, Profile>): (r: Result<PlayerState, Error>)
    ensures r.Failure? <==> userId !in profiles
    ensures r.Failure? ==> r.error == UserNotFound(userId)
    ensures r.Success? ==>
      && r.value.name == profiles[userId].username
      && r.value.profilePic == profiles[userId].profilePicture
      && r.value.color == color
      && PlayerValid(r.value)
      && (forall i :: 0 <= i < |r.value.pawnsState| ==> r.value.pawnsState[i].position == Ready)
      && IsZeroDice(r.value.diceValues)
      && r.value.bonus == 0
  {
    if userId !in profiles then Failure(UserNotFound(userId))
    else
      var user := profiles[userId];
      Success(PlayerState(
        user.username, user.profilePicture, color,
        seq(PawnCount, i => PawnState(color, Ready, i)),
        ZeroDice, 0, 0))
  }

  /**
   * The players map of a new game (initGameState): the first user blue,
   * the second red, profiles fetched in that order. When both entries carry
   * the same user id the map holds one entry, the red one.
   */
  function InitPlayers(userId1: int, userId2: int, profiles: map<int, Profile>): (r: Result<seq<(int, PlayerState)>, Error>)
    ensures r.Success? <==> userId1 in profiles && userId2 in profiles
    ensures userId1 !in profiles ==> r == Failure(UserNotFound(userId1))
    ensures userId1 in profiles && userId2 !in profiles ==> r == Failure(UserNotFound(userId2))
    ensures r.Success? ==>
      && PlayersValid(r.value)
      && OM.Has(r.value, userId1)
      && var s1, s2 := InitPlayerState(userId1, Blue, profiles).value, InitPlayerState(userId2, Red, profiles).value;
         r.value == if userId1 == userId2 then [(userId1, s2)] else [(userId1, s1), (userId2, s2)]
  {
    match InitPlayerState(userId1, Blue, profiles)
    case Failure(e) => Failure(e)
    case Success(s1) =>
      match InitPlayerState(userId2, Red, profiles)
      case Failure(e) => Failure(e)
      case Success(s2) =>
        OM.FromTwoEntries(userId1, s1, userId2, s2);
        Success(MapToString(OM.FromEntries([(userId1, s1), (userId2, s2)])))
  }

  // ---------------------------------------------------------------- dice

  /**
   * getRandVal: the face at index floor(random * |arr|). The caller supplies
   * the draw `pick`, and pick % |arr| is that index, so every index of a
   * non-empty array can be drawn and no other. An empty array yields None,
   * JavaScript's `undefined`.
   */
  function RandVal(arr: seq<int>, pick: nat): (r: Option<int>)
    ensures r.Some? <==> arr != []
    ensures r.Some? ==> r.value in arr
    ensures pick < |arr| ==> r == Some(arr[pick])
  {
    if arr == [] then None else Some(arr[pick % |arr|])
  }

  /** JavaScript's `a > b` on rolls: false whenever either side is `undefined`. */
  predicate Greater(a: Option<int>, b: Option<int>) {
    a.Some? && b.Some? && a.value > b.value
  }

  /**
   * The turn after a round in which the first player rolled v1 and the
   * second v2: the strictly higher roll takes it; on a tie it goes to
   * userId1 + userId2 - currentTurn, the player who did not hold it.
   */
  function NextTurn(userId1: int, userId2: int, v1: Option<int>, v2: Option<int>, currentTurn: int): (t: int)
    ensures Greater(v1, v2) ==> t == userId1
    ensures Greater(v2, v1) ==> t == userId2
    ensures !Greater(v1, v2) && !Greater(v2, v1) ==> t == userId1 + userId2 - currentTurn
    ensures !Greater(v1, v2) && !Greater(v2, v1) && currentTurn == userId1 ==> t == userId2
    ensures !Greater(v1, v2) && !Greater(v2, v1) && currentTurn == userId2 ==> t == userId1
    ensures currentTurn == userId1 || currentTurn == userId2 ==> t == userId1 || t == userId2
  {
    if Greater(v1, v2) then userId1
    else if Greater(v2, v1) then userId2
    else userId1 + userId2 - currentTurn
  }

  /** Two ties in a row hand the turn back to the player who held it before them. */
  lemma TieTwiceRestoresTurn(userId1: int, userId2: int, v: Option<int>, w: Option<int>, currentTurn: int)
    ensures NextTurn(userId1, userId2, v, v, NextTurn(userId1, userId2, w, w, currentTurn)) == currentTurn
  {
  }

  /** No player of the map has the all-zero dice of "not rolled yet". */
  predicate AllRolled(ps: seq<(int, PlayerState)>) {
    forall i :: 0 <= i < |ps| ==> !IsZeroDice(ps[i].1.diceValues)
  }

  /**
   * The resolution step of buildDice on the stored players map: nothing
   * while some player's dice are all zero; otherwise the first two entries
   * are the two players, each roll is the face at its drawn index, and
   * NextTurn decides the turn. A one-entry map that passes the test fails
   * when it is destructured as two entries.
   */
  function Resolve(ps: seq<(int, PlayerState)>, currentTurn: int, pick1: nat, pick2: nat): (r: Result<Option<DiceRolledEvent>, Error>)
    requires OM.DistinctKeys(ps)
    ensures r == Success(None) <==> !AllRolled(ps)
    ensures r.Failure? <==> AllRolled(ps) && |ps| < 2
    ensures r.Failure? ==> r.error == MissingSecondPlayer
    ensures r.Success? && r.value.Some? ==>
      && |ps| >= 2
      && var e, v1, v2 := r.value.value, RandVal(ps[0].1.diceValues, pick1), RandVal(ps[1].1.diceValues, pick2);
      && e.diceValues == [(ps[0].0, ps[0].1.diceValues), (ps[1].0, ps[1].1.diceValues)]
      && e.diceResults == [(ps[0].0, v1), (ps[1].0, v2)]
      && e.turn == NextTurn(ps[0].0, ps[1].0, v1, v2, currentTurn)
      && (ps[0].1.diceValues != [] ==> v1.Some? && v1.value in ps[0].1.diceValues)
      && (ps[1].1.diceValues != [] ==> v2.Some? && v2.value in ps[1].1.diceValues)
      && (currentTurn == ps[0].0 || currentTurn == ps[1].0 ==> e.turn == ps[0].0 || e.turn == ps[1].0)
  {
    if !AllRolled(ps) then Success(None)
    else if |ps| < 2 then Failure(MissingSecondPlayer)
    else
      var (userId1, player1) := ps[0];
      var (userId2, player2) := ps[1];
      var v1 := RandVal(player1.diceValues, pick1);
      var v2 := RandVal(player2.diceValues, pick2);
      var turn := NextTurn(userId1, userId2, v1, v2, currentTurn);
      OM.FromTwoEntries(userId1, player1.diceValues, userId2, player2.diceValues);
      OM.FromTwoEntries(userId1, v1, userId2, v2);
      Success(Some(DiceRolledEvent(
        MapToString(OM.FromEntries([(userId1, player1.diceValues), (userId2, player2.diceValues)])),
        MapToString(OM.FromEntries([(userId1, v1), (userId2, v2)])),
        turn)))
  }

  /** initDice on the players map: every player's faces back to six zeros, nothing else touched. */
  function ResetDice(ps: seq<(int, PlayerState)>): (r: seq<(int, PlayerState)>)
    ensures OM.Keys(r) == OM.Keys(ps)
    ensures forall i :: 0 <= i < |r| ==> IsZeroDice(r[i].1.diceValues)
    ensures forall i :: 0 <= i < |r| ==> r[i].1.(diceValues := ps[i].1.diceValues) == ps[i].1
    ensures PlayersValid(ps) ==> PlayersValid(r)
  {
    seq(|ps|, i requires 0 <= i < |ps| => (ps[i].0, ps[i].1.(diceValues := ZeroDice)))
  }

  /**
   * Whatever indices are drawn, a first player every one of whose faces
   * beats every face of the second takes the turn, and the rolls are faces.
   */
  lemma HigherFacesWin(ps: seq<(int, PlayerState)>, currentTurn: int, pick1: nat, pick2: nat)
    requires OM.DistinctKeys(ps) && |ps| >= 2 && AllRolled(ps)
    requires ps[0].1.diceValues != [] && ps[1].1.diceValues != []
    requires forall a, b :: a in ps[0].1.diceValues && b in ps[1].1.diceValues ==> a > b
    ensures Resolve(ps, currentTurn, pick1, pick2).Success?
    ensures Resolve(ps, currentTurn, pick1, pick2).value.Some?
    ensures Resolve(ps, currentTurn, pick1, pick2).value.value.turn == ps[0].0
  {
    var v1 := RandVal(ps[0].1.diceValues, pick1);
    var v2 := RandVal(ps[1].1.diceValues, pick2);
    assert Greater(v1, v2);
  }

  /** On a valid players map whose turn is held by a player, a resolved round hands the turn to a player. */
  lemma ResolveKeepsTurnWithPlayers(ps: seq<(int, PlayerState)>, currentTurn: int, pick1: nat, pick2: nat)
    requires PlayersValid(ps) && OM.Has(ps, currentTurn)
    ensures var r := Resolve(ps, currentTurn, pick1, pick2);
      r.Success? && r.value.Some? ==> OM.Has(ps, r.value.value.turn)
  {
    var r := Resolve(ps, currentTurn, pick1, pick2);
    if r.Success? && r.value.Some? {
      var turn := r.value.value.turn;
      assert currentTurn == ps[0].0 || currentTurn == ps[1].0;
      if turn == ps[0].0 { OM.DistinctFind(ps, 0); } else { OM.DistinctFind(ps, 1); }
    }
  }

  // ---------------------------------------------------------------- pawns

  /**
   * The pawns of one player after updAnimation: every listed slot moves to
   * `to`, every other pawn stays where it is, and no pawn changes slot or
   * colour.
   */
  function MovedPawns(pawns: seq<PawnState>, pawnsIndex: seq<int>, to: PawnPosition): (r: seq<PawnState>)
    ensures |r| == |pawns|
    ensures forall i :: 0 <= i < |r| && i in pawnsIndex ==> r[i].position == to
    ensures forall i :: 0 <= i < |r| && i !in pawnsIndex ==> r[i] == pawns[i]
    ensures forall i :: 0 <= i < |r| ==> r[i].index == pawns[i].index && r[i].color == pawns[i].color
  {
    seq(|pawns|, i requires 0 <= i < |pawns| => if i in pawnsIndex then pawns[i].(position := to) else pawns[i])
  }

  /** Moving pawns keeps a player valid. */
  lemma MovedPawnsKeepPlayer(p: PlayerState, pawnsIndex: seq<int>, to: PawnPosition)
    requires PlayerValid(p)
    ensures PlayerValid(p.(pawnsState := MovedPawns(p.pawnsState, pawnsIndex, to)))
  {
  }

  // ---------------------------------------------------------------- end of game

  /** Every pawn of the player is finished. */
  predicate AllFinished(p: PlayerState) {
    forall i :: 0 <= i < |p.pawnsState| ==> p.pawnsState[i].position == Finished
  }

  /** Every player's dice are the six zeros. */
  predicate AllZero(ps: seq<(int, PlayerState)>) {
    forall i :: 0 <= i < |ps| ==> IsZeroDice(ps[i].1.diceValues)
  }

  /**
   * The winner checkGameEnd reports: the first user id, in map order, whose
   * pawns are all finished; None when no player has finished.
   */
  function FirstFinished(ps: seq<(int, PlayerState)>): (r: Option<int>)
    ensures r.None? <==> forall i :: 0 <= i < |ps| ==> !AllFinished(ps[i].1)
    ensures r.Some? ==> exists i :: 0 <= i < |ps| && ps[i].0 == r.value && AllFinished(ps[i].1)
                                    && forall j :: 0 <= j < i ==> !AllFinished(ps[j].1)
  {
    if ps == [] then None
    else if AllFinished(ps[0].1) then Some(ps[0].0)
    else
      var r := FirstFinished(ps[1..]);
      assert r.Some? ==> exists i :: 0 <= i < |ps| && ps[i].0 == r.value && AllFinished(ps[i].1)
                                    && forall j :: 0 <= j < i ==> !AllFinished(ps[j].1) by {
        if r.Some? {
          var i :| 0 <= i < |ps| - 1 && ps[1..][i].0 == r.value && AllFinished(ps[1..][i].1)
                   && forall j :: 0 <= j < i ==> !AllFinished(ps[1..][j].1);
          assert forall j :: 0 <= j < i + 1 ==> !AllFinished(ps[j].1) by {
            forall j | 0 <= j < i + 1 ensures !AllFinished(ps[j].1) {
              if j > 0 { assert ps[j] == ps[1..][j - 1]; }
            }
          }
        }
      }
      assert r.None? ==> forall i :: 0 <= i < |ps| ==> !AllFinished(ps[i].1) by {
        if r.None? {
          forall i | 0 <= i < |ps| ensures !AllFinished(ps[i].1) {
            if i > 0 { assert ps[i] == ps[1..][i - 1]; }
          }
        }
      }
      r
  }

  /** The winner is the player at the first position whose pawns are all finished. */
  lemma {:induction false} FirstFinishedAt(ps: seq<(int, PlayerState)>, i: nat)
    requires i < |ps| && AllFinished(ps[i].1)
    requires forall j :: 0 <= j < i ==> !AllFinished(ps[j].1)
    ensures FirstFinished(ps) == Some(ps[i].0)
    decreases i
  {
    if i > 0 {
      assert !AllFinished(ps[0].1);
      assert forall j :: 0 <= j < i - 1 ==> ps[1..][j] == ps[j + 1];
      FirstFinishedAt(ps[1..], i - 1);
    }
  }

  // ---------------------------------------------------------------- identity tables
  //
  // The two identity tables, user id to socket id and socket id to user id,
  // are Maps whose entry order nothing reads; they are modelled as maps.

  /** getSocketId's filter and map: the bound socket of each listed user that has one, in list order. */
  function SocketsOf(userIds: seq<int>, socketIdMap: map<int, string>): (r: seq<string>)
    ensures |r| <= |userIds|
    ensures forall s :: s in r <==> exists u :: u in userIds && u in socketIdMap && socketIdMap[u] == s
  {
    if userIds == [] then []
    else
      var rest := SocketsOf(userIds[1..], socketIdMap);
      var head := if userIds[0] in socketIdMap then [socketIdMap[userIds[0]]] else [];
      assert forall u :: u in userIds <==> u == userIds[0] || u in userIds[1..];
      head + rest
  }

  /** The bindings of tryStartGame: each paired (socket, user) recorded in both tables, first pair first. */
  function BindPlayers(socketIdMap: map<int, string>, userIdMap: map<string, int>, players: seq<(string, int)>)
    : (r: (map<int, string>, map<string, int>))
    decreases |players|
  {
    if players == [] then (socketIdMap, userIdMap)
    else
      var (socketId, userId) := players[0];
      BindPlayers(socketIdMap[userId := socketId], userIdMap[socketId := userId], players[1..])
  }

  /**
   * Pairing two queue entries binds both users and both sockets, the second
   * entry winning where the two share a user id or a socket, and leaves
   * every other entry of both tables as it was.
   */
  lemma BindTwo(socketIdMap: map<int, string>, userIdMap: map<string, int>, p0: (string, int), p1: (string, int))
    ensures var r := BindPlayers(socketIdMap, userIdMap, [p0, p1]);
      && r == (socketIdMap[p0.1 := p0.0][p1.1 := p1.0], userIdMap[p0.0 := p0.1][p1.0 := p1.1])
      && r.0[p1.1] == p1.0 && r.1[p1.0] == p1.1
      && (p0.1 != p1.1 ==> r.0[p0.1] == p0.0)
      && (p0.0 != p1.0 ==> r.1[p0.0] == p0.1)
      && (forall u :: u != p0.1 && u != p1.1 ==> (u in r.0 <==> u in socketIdMap) && (u in r.0 ==> r.0[u] == socketIdMap[u]))
      && (forall s :: s != p0.0 && s != p1.0 ==> (s in r.1 <==> s in userIdMap) && (s in r.1 ==> r.1[s] == userIdMap[s]))
  {
    assert [p0, p1][1..] == [p1] && [p1][1..] == [];
    var sm1, um1 := socketIdMap[p0.1 := p0.0], userIdMap[p0.0 := p0.1];
    assert BindPlayers(socketIdMap, userIdMap, [p0, p1]) == BindPlayers(sm1, um1, [p1]);
    assert BindPlayers(sm1, um1, [p1]) == BindPlayers(sm1[p1.1 := p1.0], um1[p1.0 := p1.1], []);
  }

  /** The listed users, as a set. */
  ghost function Members(userIds: seq<int>): set<int> {
    set u | u in userIds
  }

  /** The sockets bound to the listed users, other than the empty string (which `if(socketId)` skips). */
  ghost function BoundSockets(socketIdMap: map<int, string>, userIds: seq<int>): set<string> {
    set u | u in userIds && u in socketIdMap && socketIdMap[u] != "" :: socketIdMap[u]
  }

  /** One pass of removeGame's loop: drop the user's socket binding and the reverse binding of that socket. */
  function UnbindUser(socketIdMap: map<int, string>, userIdMap: map<string, int>, userId: int)
    : (r: (map<int, string>, map<string, int>))
    ensures r.0.Keys == socketIdMap.Keys - {userId}
    ensures r.1.Keys == userIdMap.Keys - BoundSockets(socketIdMap, [userId])
    ensures forall u :: u in r.0 ==> r.0[u] == socketIdMap[u]
    ensures forall s :: s in r.1 ==> r.1[s] == userIdMap[s]
  {
    assert BoundSockets(socketIdMap, [userId]) ==
      if userId in socketIdMap && socketIdMap[userId] != "" then {socketIdMap[userId]} else {};
    if userId in socketIdMap && socketIdMap[userId] != "" then
      (socketIdMap - {userId}, userIdMap - {socketIdMap[userId]})
    else
      (socketIdMap - {userId}, userIdMap)
  }

  /** removeGame's loop over the game's users, one UnbindUser per user in order. */
  function Unbind(socketIdMap: map<int, string>, userIdMap: map<string, int>, userIds: seq<int>)
    : (r: (map<int, string>, map<string, int>))
    ensures r.0.Keys <= socketIdMap.Keys && r.1.Keys <= userIdMap.Keys
    decreases |userIds|
  {
    if userIds == [] then (socketIdMap, userIdMap)
    else
      var next := UnbindUser(socketIdMap, userIdMap, userIds[0]);
      Unbind(next.0, next.1, userIds[1..])
  }

  /**
   * After removeGame's loop none of the game's users has a socket binding,
   * none of their (non-empty) sockets has a user binding, and every other
   * entry of both tables is as before.
   */
  lemma {:induction false} UnbindClears(socketIdMap: map<int, string>, userIdMap: map<string, int>, userIds: seq<int>)
    ensures var r := Unbind(socketIdMap, userIdMap, userIds);
      && r.0 == socketIdMap - Members(userIds)
      && r.1 == userIdMap - BoundSockets(socketIdMap, userIds)
    decreases |userIds|
  {
    var r := Unbind(socketIdMap, userIdMap, userIds);
    if userIds == [] {
      assert BoundSockets(socketIdMap, userIds) == {};
    } else {
      var first, rest := userIds[0], userIds[1..];
      var next := UnbindUser(socketIdMap, userIdMap, first);
      UnbindClears(next.0, next.1, rest);
      assert forall u :: u in userIds <==> u == first || u in rest;
      assert BoundSockets(socketIdMap, userIds) == BoundSockets(socketIdMap, [first]) + BoundSockets(next.0, rest);
    }
  }
}
