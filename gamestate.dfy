/** Record types of the in-memory game registry: a player, a guess and a game. */
module GameState {

  /** A latitude/longitude pair. The server never computes with it, so it is
      carried around as an opaque value. */
  datatype Coord = Coord(lat: real, lng: real)

  /** A participant: the socket id of its connection and its display name.
      Nothing in the type prevents two entries with the same id. */
  datatype Player = Player(id: string, name: string)

  /** A submitted guess: the coordinate and the submitter's display name. */
  datatype Guess = Guess(guess: Coord, name: string)

  /** One game session. `players` is ordered by join time, `endTime` is an
      absolute time in milliseconds and `guesses` is keyed by socket id, so a
      game holds at most one guess per socket. */
  datatype Game = Game(
    players: seq<Player>,
    location: Coord,
    endTime: int,
    guesses: map<string, Guess>)

  /** The registry: game id to game. */
  type Registry = map<string, Game>
}
