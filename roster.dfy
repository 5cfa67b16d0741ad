/** Queries and edits on a game's ordered player list: `findIndex`, `splice`
    and the name lookup used when a guess is stored. */
module Roster {
  import opened GameState

  /** Name recorded for a guess whose socket is not in the player list. */
  const UNKNOWN_NAME: string := "Unknown"

  /** True when some entry of `players` has socket id `id`. */
  predicate HasPlayer(players: seq<Player>, id: string)
  {
    exists i :: 0 <= i < |players| && players[i].id == id
  }

  /** `players.findIndex(p => p.id === id)`: the index of the first entry with
      that id, or -1 when there is none. */
  function FindIndex(players: seq<Player>, id: string): (r: int)
    ensures -1 <= r < |players|
    ensures r >= 0 ==> players[r].id == id && forall j :: 0 <= j < r ==> players[j].id != id
    ensures r == -1 <==> !HasPlayer(players, id)
  {
    if |players| == 0 then -1
    else if players[0].id == id then 0
    else
      var r' := FindIndex(players[1..], id);
      if r' == -1 then -1 else r' + 1
  }

  /** `players.splice(i, 1)`: the list without its i-th entry. */
  function RemoveAt(players: seq<Player>, i: nat): (r: seq<Player>)
    requires i < |players|
    ensures |r| == |players| - 1
    ensures forall j :: 0 <= j < i ==> r[j] == players[j]
    ensures forall j :: i <= j < |r| ==> r[j] == players[j + 1]
  {
    players[..i] + players[i + 1..]
  }

  /** `getPlayerName`: the name of the first player with socket id `socketId`,
      or "Unknown" when no player has that id. */
  function GetPlayerName(game: Game, socketId: string): (r: string)
    ensures !HasPlayer(game.players, socketId) ==> r == UNKNOWN_NAME
    ensures forall i :: 0 <= i < |game.players| ==>
              (game.players[i].id == socketId && forall j :: 0 <= j < i ==> game.players[j].id != socketId) ==>
              r == game.players[i].name
  {
    var i := FindIndex(game.players, socketId);
    if i == -1 then UNKNOWN_NAME else game.players[i].name
  }

  /** The set of socket ids in a player list. */
  function Ids(players: seq<Player>): (r: set<string>)
    ensures forall id :: id in r <==> HasPlayer(players, id)
  {
    if players == [] then {}
    else
      var rest := Ids(players[1..]);
      assert forall id :: HasPlayer(players[1..], id) ==> HasPlayer(players, id) by {
        forall id | HasPlayer(players[1..], id) ensures HasPlayer(players, id) {
          var k :| 0 <= k < |players[1..]| && players[1..][k].id == id;
          assert players[k + 1].id == id;
        }
      }
      {players[0].id} + rest
  }

  /** No two entries of the list share a socket id. The record type does not
      guarantee this: the same socket may join a game twice. */
  predicate DistinctIds(players: seq<Player>)
  {
    forall i, j :: 0 <= i < j < |players| ==> players[i].id != players[j].id
  }

  /** A list with distinct ids has as many ids as entries. */
  lemma {:induction false} DistinctIdsCount(players: seq<Player>)
    requires DistinctIds(players)
    ensures |Ids(players)| == |players|
  {
    if players != [] {
      var rest := players[1..];
      assert DistinctIds(rest) by {
        forall i, j | 0 <= i < j < |rest| ensures rest[i].id != rest[j].id {
          assert rest[i] == players[i + 1] && rest[j] == players[j + 1];
        }
      }
      DistinctIdsCount(rest);
      assert !HasPlayer(rest, players[0].id) by {
        forall k | 0 <= k < |rest| ensures rest[k].id != players[0].id {
          assert rest[k] == players[k + 1];
        }
      }
    }
  }

  /** Removing the only entry with a given id leaves no entry with that id. */
  lemma RemoveOnlyOccurrence(players: seq<Player>, id: string)
    requires DistinctIds(players)
    requires HasPlayer(players, id)
    ensures !HasPlayer(RemoveAt(players, FindIndex(players, id)), id)
  {
    var i := FindIndex(players, id);
    var r := RemoveAt(players, i);
    forall j | 0 <= j < |r| ensures r[j].id != id {
      if j >= i {
        assert r[j] == players[j + 1];
      }
    }
  }
}
