/** The game-session registry and the four Socket.IO handlers that change it:
    create a game, join a game, submit a guess, and drop a disconnecting
    socket from every game. Socket ids, the new game id and the current time
    are parameters; the acknowledgements and broadcast events are results. */
module Server {
  import opened GameState
  import opened Roster

  /** Length of a round in milliseconds (five minutes). */
  const GAME_DURATION: int := 300000

  /** A game admits a join only while it has fewer players than this. */
  const MAX_PLAYERS: nat := 8

  const JOIN_FAILED_MESSAGE: string := "Game not found or full."
  const GAME_NOT_FOUND_MESSAGE: string := "Game not found."

  /** Acknowledgement of `createGame`. */
  datatype CreateAck = CreateAck(gameId: string, location: Coord, endTime: int)

  /** Acknowledgement of `joinGame`; on success also the `playerJoined`
      broadcast payload (the game's player list after the join). */
  datatype JoinReply =
    | Joined(location: Coord, endTime: int, players: seq<Player>)
    | JoinRefused(message: string)

  /** Acknowledgement of `submitGuess`; on success also whether `showResults`
      was broadcast. */
  datatype GuessReply =
    | GuessAccepted(showResults: bool)
    | GuessRefused(message: string)

  /** Every game in the registry has between one and MAX_PLAYERS players:
      a game is created with one, a join never passes the cap, and a game
      whose last player leaves is deleted. */
  predicate WellFormed(games: Registry)
  {
    forall k :: k in games ==> 1 <= |games[k].players| <= MAX_PLAYERS
  }

  /** The `showResults` condition evaluated after a guess is stored: as many
      guess keys as players, or the deadline reached. */
  predicate ShowResults(game: Game, now: int)
    ensures now >= game.endTime ==> ShowResults(game, now)
    ensures now < game.endTime ==> (ShowResults(game, now) <==> |game.guesses.Keys| == |game.players|)
  {
    |game.guesses| == |game.players| || now >= game.endTime
  }

  /** Before the deadline, when every guess key belongs to a player and no
      two players share a socket id, the count test fires exactly when
      every player has guessed. */
  lemma {:induction false} ShowResultsWhenAllGuessed(game: Game, now: int)
    requires now < game.endTime
    requires DistinctIds(game.players)
    requires game.guesses.Keys <= Ids(game.players)
    ensures ShowResults(game, now) <==> Ids(game.players) <= game.guesses.Keys
  {
    DistinctIdsCount(game.players);
    var ids := Ids(game.players);
    if ShowResults(game, now) {
      assert |ids - game.guesses.Keys| == |ids| - |game.guesses.Keys| == 0;
      assert ids - game.guesses.Keys == {};
    }
    if ids <= game.guesses.Keys {
      assert ids == game.guesses.Keys;
    }
  }

  /** The count test does not look at whose guesses they are: a guess from a
      socket outside the player list can complete the count while a player
      has not guessed. */
  lemma NonMemberGuessCompletesCount()
    ensures var g := Game([Player("a", "Ann"), Player("b", "Bo")], Coord(0.0, 0.0), 10,
                          map["a" := Guess(Coord(1.0, 1.0), "Ann"), "x" := Guess(Coord(2.0, 2.0), UNKNOWN_NAME)]);
            ShowResults(g, 0) && "b" !in g.guesses
  {
    var guesses := map["a" := Guess(Coord(1.0, 1.0), "Ann"), "x" := Guess(Coord(2.0, 2.0), UNKNOWN_NAME)];
    assert guesses.Keys == {"a", "x"};
    assert |guesses.Keys| == 2 by {
      assert "a" != "x";
    }
  }

  /** Overwriting a socket's earlier guess leaves the count of guesses as it
      was, so resubmitting re-evaluates the condition on the same count. */
  lemma OverwriteKeepsCount(game: Game, socketId: string, guess: Guess)
    requires socketId in game.guesses
    ensures |game.guesses[socketId := guess]| == |game.guesses|
  {
    assert game.guesses[socketId := guess].Keys == game.guesses.Keys;
  }

  /** Nothing records that results were shown: once the condition holds,
      a resubmission by a socket that already guessed signals again. */
  lemma ResultsSignalRepeats(game: Game, socketId: string, guess: Guess, now: int, later: int)
    requires ShowResults(game, now) && socketId in game.guesses && now <= later
    ensures ShowResults(game.(guesses := game.guesses[socketId := guess]), later)
  {
    OverwriteKeepsCount(game, socketId, guess);
  }

  /** One game after `socketId` leaves it: the first entry with that id is
      spliced out; a game without it is returned as it is. */
  function WithoutEntry(game: Game, socketId: string): (r: Game)
    ensures r.location == game.location && r.endTime == game.endTime && r.guesses == game.guesses
    ensures !HasPlayer(game.players, socketId) ==> r == game
    ensures HasPlayer(game.players, socketId) ==>
              r.players == RemoveAt(game.players, FindIndex(game.players, socketId))
  {
    var i := FindIndex(game.players, socketId);
    if i == -1 then game else game.(players := RemoveAt(game.players, i))
  }

  /** Whether `removePlayerFromGames(socketId)` deletes this game: it had
      that socket as its only player. */
  predicate EmptiedBy(game: Game, socketId: string)
    ensures EmptiedBy(game, socketId) <==>
              HasPlayer(game.players, socketId) && |WithoutEntry(game, socketId).players| == 0
  {
    HasPlayer(game.players, socketId) && |game.players| == 1
  }

  /** The registry after `removePlayerFromGames(socketId)`: games without
      the socket are untouched, the others lose the socket's first entry,
      and those left with no player are deleted. */
  function WithoutPlayer(games: Registry, socketId: string): (r: Registry)
    ensures forall k :: k in r <==> k in games && !EmptiedBy(games[k], socketId)
    ensures forall k :: k in r ==> r[k] == WithoutEntry(games[k], socketId)
  {
    map k | k in games && !EmptiedBy(games[k], socketId) :: WithoutEntry(games[k], socketId)
  }

  /** Disconnect cleanup keeps every game between one and MAX_PLAYERS players. */
  lemma WithoutPlayerWellFormed(games: Registry, socketId: string)
    requires WellFormed(games)
    ensures WellFormed(WithoutPlayer(games, socketId))
  {
    var r := WithoutPlayer(games, socketId);
    forall k | k in r ensures 1 <= |r[k].players| <= MAX_PLAYERS {
      var g := games[k];
      if HasPlayer(g.players, socketId) {
        assert |r[k].players| == |g.players| - 1;
      }
    }
  }

  /** A socket that appears at most once in each game is in no game after
      the cleanup, and no guess is lost. */
  lemma WithoutPlayerRemovesSocket(games: Registry, socketId: string)
    requires forall k :: k in games ==> DistinctIds(games[k].players)
    ensures forall k :: k in WithoutPlayer(games, socketId) ==>
              !HasPlayer(WithoutPlayer(games, socketId)[k].players, socketId) &&
              WithoutPlayer(games, socketId)[k].guesses == games[k].guesses
  {
    var r := WithoutPlayer(games, socketId);
    forall k | k in r ensures !HasPlayer(r[k].players, socketId) {
      if HasPlayer(games[k].players, socketId) {
        RemoveOnlyOccurrence(games[k].players, socketId);
      }
    }
  }

  /** A socket that joined its game twice has two entries: its guesses are
      named after the first, and a disconnect removes only the first. */
  lemma SameSocketTwice()
    ensures var ps := [Player("s", "Ann"), Player("s", "Ann again")];
            var g := Game(ps, Coord(0.0, 0.0), 0, map[]);
            GetPlayerName(g, "s") == "Ann" &&
            WithoutPlayer(map["g" := g], "s") == map["g" := g.(players := [Player("s", "Ann again")])]
  {
    var ps := [Player("s", "Ann"), Player("s", "Ann again")];
    var g := Game(ps, Coord(0.0, 0.0), 0, map[]);
    assert FindIndex(ps, "s") == 0;
    assert RemoveAt(ps, 0) == [ps[1]];
    assert !EmptiedBy(g, "s");
  }

  /** The registry part-way through the cleanup loop: the games in `done`
      have been visited, the others are as they were. */
  ghost function Swept(start: Registry, done: set<string>, socketId: string): Registry
  {
    map k | k in start && !(k in done && EmptiedBy(start[k], socketId)) ::
      if k in done then WithoutEntry(start[k], socketId) else start[k]
  }

  /** The `playerLeft` payloads sent for the games in `done`. */
  ghost function Departures(start: Registry, done: set<string>, socketId: string): map<string, seq<Player>>
  {
    map k | k in start && k in done && HasPlayer(start[k].players, socketId) ::
      WithoutEntry(start[k], socketId).players
  }

  /** Visiting game `k` of `games`: splice out the socket's first entry and
      delete the game if that emptied it. */
  ghost function Visit(games: Registry, k: string, socketId: string): (r: Registry)
    requires k in games
    ensures r.Keys == if EmptiedBy(games[k], socketId) then games.Keys - {k} else games.Keys
    ensures k in r ==> r[k] == WithoutEntry(games[k], socketId)
    ensures forall j :: j in r && j != k ==> r[j] == games[j]
  {
    if !HasPlayer(games[k].players, socketId) then games
    else if EmptiedBy(games[k], socketId) then games - {k}
    else games[k := WithoutEntry(games[k], socketId)]
  }

  /** One more visited game is one loop iteration's update of the registry. */
  lemma SweptStep(start: Registry, done: set<string>, k: string, socketId: string)
    requires k in start && k !in done
    ensures k in Swept(start, done, socketId) && Swept(start, done, socketId)[k] == start[k]
    ensures Swept(start, done + {k}, socketId) == Visit(Swept(start, done, socketId), k, socketId)
  {
    var g, g' := Swept(start, done, socketId), Swept(start, done + {k}, socketId);
    var v := Visit(g, k, socketId);
    assert g'.Keys == v.Keys;
    forall j | j in v ensures g'[j] == v[j] {
      if j == k {
        assert g'[j] == WithoutEntry(start[k], socketId);
      }
    }
  }

  /** One more visited game adds its `playerLeft` payload when it held the
      socket. */
  lemma DeparturesStep(start: Registry, done: set<string>, k: string, socketId: string)
    requires k in start && k !in done
    ensures Departures(start, done + {k}, socketId) ==
              if HasPlayer(start[k].players, socketId)
              then Departures(start, done, socketId)[k := WithoutEntry(start[k], socketId).players]
              else Departures(start, done, socketId)
  {
    var d, d' := Departures(start, done, socketId), Departures(start, done + {k}, socketId);
    if HasPlayer(start[k].players, socketId) {
      var e := d[k := WithoutEntry(start[k], socketId).players];
      assert d'.Keys == e.Keys;
      forall j | j in e ensures d'[j] == e[j] { }
    } else {
      assert d'.Keys == d.Keys;
    }
  }

  /** Once every game has been visited the loop has computed the cleanup. */
  lemma SweptAll(start: Registry, socketId: string)
    ensures Swept(start, start.Keys, socketId) == WithoutPlayer(start, socketId)
    ensures forall k :: k in Departures(start, start.Keys, socketId) <==>
              k in start && HasPlayer(start[k].players, socketId)
  {
  }

  /** The running server's registry (`games`) and its handlers. Node runs
      each handler to completion, so each is one atomic method. */
  class GameServer {
    var games: Registry

    ghost predicate Valid()
      reads this
    {
      WellFormed(games)
    }

    /** The registry starts empty. */
    constructor ()
      ensures Valid()
      ensures games == map[]
    {
      games := map[];
    }

    /** `createGame`: stores a one-player game under `gameId`, replacing any
        game already stored there, with deadline `now + GAME_DURATION`. */
    method CreateGame(gameId: string, socketId: string, playerName: string, location: Coord, now: int)
      returns (ack: CreateAck)
      requires Valid()
      modifies this
      ensures Valid()
      ensures games == old(games)[gameId := Game([Player(socketId, playerName)], location, now + GAME_DURATION, map[])]
      ensures ack == CreateAck(gameId, location, now + GAME_DURATION)
    {
      var endTime := now + GAME_DURATION;
      games := games[gameId := Game([Player(socketId, playerName)], location, endTime, map[])];
      ack := CreateAck(gameId, location, endTime);
    }

    /** `joinGame`: appends the joiner when the game exists and has fewer
        than MAX_PLAYERS players; otherwise refuses and changes nothing. */
    method JoinGame(gameId: string, socketId: string, playerName: string) returns (r: JoinReply)
      requires Valid()
      modifies this
      ensures Valid()
      ensures r.Joined? <==> gameId in old(games) && |old(games)[gameId].players| < MAX_PLAYERS
      ensures r.JoinRefused? ==> games == old(games) && r.message == JOIN_FAILED_MESSAGE
      ensures r.Joined? ==>
                var g := old(games)[gameId];
                games == old(games)[gameId := g.(players := g.players + [Player(socketId, playerName)])] &&
                r == Joined(g.location, g.endTime, games[gameId].players)
    {
      if gameId in games && |games[gameId].players| < MAX_PLAYERS {
        var g := games[gameId];
        var players := g.players + [Player(socketId, playerName)];
        games := games[gameId := g.(players := players)];
        r := Joined(g.location, g.endTime, players);
      } else {
        r := JoinRefused(JOIN_FAILED_MESSAGE);
      }
    }

    /** `submitGuess`: stores the guess under the caller's socket id, over
        any earlier guess from it, named after the caller's first player
        entry (or "Unknown"); then reports whether results are shown. A
        missing game is refused and nothing changes. */
    method SubmitGuess(gameId: string, socketId: string, guess: Coord, now: int) returns (r: GuessReply)
      requires Valid()
      modifies this
      ensures Valid()
      ensures r.GuessRefused? <==> gameId !in old(games)
      ensures r.GuessRefused? ==> games == old(games) && r.message == GAME_NOT_FOUND_MESSAGE
      ensures r.GuessAccepted? ==>
                var g := old(games)[gameId];
                games == old(games)[gameId := g.(guesses := g.guesses[socketId := Guess(guess, GetPlayerName(g, socketId))])] &&
                r.showResults == ShowResults(games[gameId], now)
    {
      if gameId in games {
        var g := games[gameId];
        var name := GetPlayerName(g, socketId);
        g := g.(guesses := g.guesses[socketId := Guess(guess, name)]);
        games := games[gameId := g];
        r := GuessAccepted(|g.guesses| == |g.players| || now >= g.endTime);
      } else {
        r := GuessRefused(GAME_NOT_FOUND_MESSAGE);
      }
    }

    /** One iteration of the cleanup loop: splices the socket's first entry
        out of game `gameId` and deletes the game if that emptied it. */
    method LeaveGame(gameId: string, socketId: string) returns (removed: bool, players: seq<Player>)
      requires gameId in games
      modifies this
      ensures games == Visit(old(games), gameId, socketId)
      ensures removed <==> HasPlayer(old(games)[gameId].players, socketId)
      ensures removed ==> players == WithoutEntry(old(games)[gameId], socketId).players
    {
      var game := games[gameId];
      var i := FindIndex(game.players, socketId);
      removed := i != -1;
      players := game.players;
      if removed {
        players := RemoveAt(game.players, i);
        games := games[gameId := game.(players := players)];
        if |players| == 0 {
          games := games - {gameId};
        }
      }
    }

    /** `removePlayerFromGames` (the `disconnect` handler): visits every game
        in some order, splices out the socket's first entry, broadcasts
        `playerLeft` with the remaining players and deletes a game left
        empty. The result maps each affected game to that payload. */
    method RemovePlayerFromGames(socketId: string) returns (left: map<string, seq<Player>>)
      requires Valid()
      modifies this
      ensures Valid()
      ensures games == WithoutPlayer(old(games), socketId)
      ensures forall k :: k in left <==> k in old(games) && HasPlayer(old(games)[k].players, socketId)
      ensures forall k :: k in left ==> left[k] == WithoutEntry(old(games)[k], socketId).players
    {
      ghost var start := games;
      ghost var done: set<string> := {};
      var todo := games.Keys;
      left := map[];
      while todo != {}
        invariant todo !! done && todo + done == start.Keys
        invariant games == Swept(start, done, socketId)
        invariant left == Departures(start, done, socketId)
        decreases todo
      {
        var gameId :| gameId in todo;
        SweptStep(start, done, gameId, socketId);
        DeparturesStep(start, done, gameId, socketId);
        var removed, players := LeaveGame(gameId, socketId);
        if removed {
          left := left[gameId := players];
        }
        todo, done := todo - {gameId}, done + {gameId};
      }
      assert done == start.Keys;
      SweptAll(start, socketId);
      WithoutPlayerWellFormed(start, socketId);
    }
  }

  /** A player guesses and then disconnects: the game stays with the other
      player, and the guess stays recorded under the departed socket. */
  method GuessThenLeaveScenario(location: Coord, spot: Coord)
  {
    var server := new GameServer();
    var ack := server.CreateGame("G", "alice", "Alice", location, 1000);
    assert ack.endTime == 301000;
    var joined := server.JoinGame("G", "bob", "Bob");
    assert joined.Joined? && joined.players == [Player("alice", "Alice"), Player("bob", "Bob")];
    var reply := server.SubmitGuess("G", "alice", spot, 2000);
    assert server.games["G"].guesses == map["alice" := Guess(spot, "Alice")];
    assert reply == GuessAccepted(false);
    var before := server.games;
    var left := server.RemovePlayerFromGames("alice");
    assert FindIndex(before["G"].players, "alice") == 0;
    assert server.games["G"].players == [Player("bob", "Bob")];
    assert "alice" in server.games["G"].guesses;
    assert left["G"] == [Player("bob", "Bob")];
  }
}
