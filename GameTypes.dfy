/**
 * The data types of the pawn race game (src/types/game.ts) and the codec
 * that turns a Map into the entries-list text carried in `GameState` and
 * `DiceRolledEvent`, and back.
 */
module GameTypes {
  import opened Wrappers
  import OM = OrderedMap

  /** The two player colours; the first player of a game is blue, the second red. */
  datatype Color = Blue | Red

  /** Where a pawn stands: not yet started, done with the race, or on a numbered board node. */
  datatype PawnPosition = Ready | Finished | Node(node: int)

  /** One pawn; `index` is its slot in the owner's pawn list. */
  datatype PawnState = PawnState(color: Color, position: PawnPosition, index: int)

  /**
   * One player's state within a game. `profilePic` is None where the
   * profile has no picture; `diceValues` are the six faces the player built;
   * `diceResult` stays 0 while the player has not rolled; `bonus` is three
   * points per captured pawn.
   */
  datatype PlayerState = PlayerState(
    name: string,
    profilePic: Option<string>,
    color: Color,
    pawnsState: seq<PawnState>,
    diceValues: seq<int>,
    diceResult: int,
    bonus: int)

  /** A move of the listed pawns of one player to `toNode`; `fromNode` is informational. */
  datatype Animation = Animation(userId: int, pawnsIndex: seq<int>, fromNode: PawnPosition, toNode: PawnPosition)

  /**
   * The result of a dice round: both players' faces and rolls, keyed by
   * user id, and the user id that holds the next turn. A roll is None
   * where JavaScript yields `undefined` (an empty face list).
   */
  datatype DiceRolledEvent = DiceRolledEvent(
    diceValues: seq<(int, seq<int>)>,
    diceResults: seq<(int, Option<int>)>,
    turn: int)

  /** Number of pawns per player. */
  const PawnCount := 4

  /** The face list of a player who has not built a die this round. */
  const ZeroDice: seq<int> := [0, 0, 0, 0, 0, 0]

  /** The server's "not rolled" test: an array of exactly six faces, all zero. */
  predicate IsZeroDice(d: seq<int>) {
    |d| == 6 && forall i :: 0 <= i < |d| ==> d[i] == 0
  }

  lemma ZeroDiceIsTheOnlyZeroDice(d: seq<int>)
    ensures IsZeroDice(d) <==> d == ZeroDice
  {
    if IsZeroDice(d) {
      assert d == [d[0], d[1], d[2], d[3], d[4], d[5]];
    }
  }

  /** What the type comments promise of a player's state: one pawn per slot, indexed by slot and in the player's colour; no roll recorded; a bonus made of 3-point captures. */
  ghost predicate PlayerValid(p: PlayerState) {
    && |p.pawnsState| == PawnCount
    && (forall i :: 0 <= i < |p.pawnsState| ==> p.pawnsState[i].index == i && p.pawnsState[i].color == p.color)
    && p.diceResult == 0
    && p.bonus >= 0 && p.bonus % 3 == 0
  }

  /**
   * A game's players map: a Map (distinct user ids) of one or two players,
   * each valid, the first blue and the last red. A single entry is the
   * collapsed map of a user paired with themself.
   */
  ghost predicate PlayersValid(ps: seq<(int, PlayerState)>) {
    && OM.DistinctKeys(ps)
    && 1 <= |ps| <= 2
    && (forall i :: 0 <= i < |ps| ==> PlayerValid(ps[i].1))
    && ps[|ps| - 1].1.color == Red
    && (|ps| == 2 ==> ps[0].1.color == Blue)
  }

  /**
   * Overwriting an existing player with a valid state of the same colour
   * keeps the players map valid, its keys, and so every player it held.
   */
  lemma SetPlayerKeepsValid(ps: seq<(int, PlayerState)>, userId: int, p: PlayerState, turn: int)
    requires PlayersValid(ps) && OM.Has(ps, userId)
    requires PlayerValid(p) && p.color == OM.Get(ps, userId).value.color
    ensures PlayersValid(OM.Set(ps, userId, p))
    ensures OM.Keys(OM.Set(ps, userId, p)) == OM.Keys(ps)
    ensures OM.Has(OM.Set(ps, userId, p), turn) == OM.Has(ps, turn)
  {
    var i := OM.Find(ps, userId).value;
    var r := OM.Set(ps, userId, p);
    assert r == ps[i := (userId, p)];
    assert forall j :: 0 <= j < |r| ==> PlayerValid(r[j].1);
    OM.SameKeysSameFind(r, ps, turn);
  }

  /**
   * A running game. `playersState` is the encoded players map (user id to
   * PlayerState) and `currentTurn` the user id that holds the turn; no
   * operation ever changes `gameId`.
   */
  class GameState {
    const gameId: string
    var playersState: seq<(int, PlayerState)>
    var currentTurn: int

    ghost predicate Valid()
      reads this
    {
      PlayersValid(playersState) && OM.Has(playersState, currentTurn)
    }

    constructor (gameId: string, playersState: seq<(int, PlayerState)>, currentTurn: int)
      ensures this.gameId == gameId && this.playersState == playersState && this.currentTurn == currentTurn
    {
      this.gameId := gameId;
      this.playersState := playersState;
      this.currentTurn := currentTurn;
    }
  }

  /**
   * mapToString: the map's entries in insertion order (the JSON text of
   * that array, kept here as the list itself).
   */
  function MapToString<K, V>(m: seq<(K, V)>): (s: seq<(K, V)>)
    ensures |s| == |m| && forall i :: 0 <= i < |m| ==> s[i] == m[i]
  {
    m
  }

  /** Decoding the encoding of a Map gives back the same entries in the same order. */
  lemma CodecRoundTrip<K(!new), V>(m: seq<(K, V)>)
    requires OM.DistinctKeys(m)
    ensures StringToMap(MapToString(m)) == m
  {
    OM.FromEntriesOfMap(m);
  }

  /**
   * stringToMap: `new Map` of the decoded entries. The result is a Map
   * whatever the list holds: a key listed twice keeps its first position
   * and its last value.
   */
  function StringToMap<K(==, !new), V>(s: seq<(K, V)>): (m: seq<(K, V)>)
    ensures OM.DistinctKeys(m)
    ensures OM.DistinctKeys(s) ==> m == s
  {
    OM.FromEntriesOfMap(s);
    OM.FromEntries(s)
  }
}
