# whereami game server, modelled in Dafny

This project models the core of a multiplayer location-guessing game. Its
Socket.IO server keeps an in-memory registry of games, keyed by game id.
Each game holds:
- an ordered list of players (socket id and display name);
- a hidden location;
- an end time in milliseconds;
- a dictionary of guesses keyed by socket id.

Four handlers change the registry:
- `createGame` stores a one-player game.
- `joinGame` appends a player while the game has fewer than 8 players.
- `submitGuess` stores or overwrites the caller's guess, then decides whether to broadcast `showResults`.
- The `disconnect` handler runs `removePlayerFromGames`, which splices the socket out of every game and deletes games left empty.

A second, smaller core is the client's countdown widget. It is a counter that
steps down once per second and fires a completion callback at 0. The widget
also renders the counter as `m:ss` and picks a text colour by band.

Layout:
- `gamestate.dfy` (module `GameState`): the `Player`, `Guess` and `Game` records and the `Registry` type.
- `roster.dfy` (module `Roster`): `findIndex`, `splice` and `getPlayerName` on a player list.
- `server.dfy` (module `Server`): the class `GameServer`. Its field `games` is the registry and its methods are the four handlers. Beside it are the pure functions that specify the disconnect cleanup and the results condition, with lemmas about them.
- `countdown.dfy` (module `Countdown`): the class `Counter` with its `Tick` method, and the pure formatting and colour functions with their lemmas.

Each handler takes its inputs as parameters: the caller's socket id, the new
game id, the location and the current time `now`. The acknowledgement and the
broadcast event come back as the method's result. The class invariant
`Valid()` says that every stored game has between 1 and 8 players. Every
handler preserves it.

What the code does not do, and the model therefore leaves out too:
- The code has no lobby, active or closed round state, so results can be signalled any number of times.
- A second guess from the same socket overwrites the first.
- A guess from a socket that is not a player is stored, under the name "Unknown".
- Coordinates are not range-checked.
- Game ids are not checked for collisions, so creating a game under an existing id replaces that game.
- The results test compares the number of guesses with the number of players. It does not check that every player has guessed.

The method `Server.GuessThenLeaveScenario` is a client of the `GameServer`
contracts. Alice creates a game, Bob joins, and Alice guesses and then
disconnects. Its assertions show that the game stays with Bob alone, that
Alice's guess stays recorded, and that `playerLeft` carries only Bob.

## Model

| member | source | states |
|---|---|---|
| `Roster.FindIndex` | src/server.ts:27 | Returns the index of the first player with the given socket id, with no earlier match, or -1 exactly when no player has that id |
| `Roster.RemoveAt` | src/server.ts:31 | `splice(i, 1)` gives a list one shorter, with the entries before `i` kept in place and the later ones moved down by one, in order |
| `Roster.GetPlayerName` | src/server.ts:138-141 | Returns the name of the first player whose id is the socket id, or "Unknown" when no player has it |
| `Roster.Ids` | src/lib/gameState.ts:2-5 | The id set of a player list contains exactly the ids some entry carries |
| `Roster.DistinctIdsCount` | src/lib/gameState.ts:13 | A player list whose ids are pairwise distinct has as many ids as entries (the array type itself does not exclude duplicates) |
| `Roster.RemoveOnlyOccurrence` | src/server.ts:27-31 | When ids are distinct, splicing out the first entry with an id leaves no entry with that id |
| `Server.ShowResults` | src/server.ts:101 | The condition on line 101 as written: results at the deadline, or before it when the count of guess keys equals the count of players; what that count test means is proved by `ShowResultsWhenAllGuessed` |
| `Server.ShowResultsWhenAllGuessed` | src/server.ts:100-101 | Before the deadline, if every guess key is a player id and ids are distinct, the count test fires exactly when every player has guessed (both directions) |
| `Server.NonMemberGuessCompletesCount` | src/server.ts:94-101 | The count test does not check who guessed: a guess from a socket outside the game can fire results while a player has not guessed |
| `Server.OverwriteKeepsCount` | src/server.ts:96-101 | Overwriting an earlier guess from the same socket leaves the number of guesses unchanged |
| `Server.ResultsSignalRepeats` | src/server.ts:101-107 | No "already shown" state exists: once the condition holds, a later resubmission by a socket that already guessed fires results again |
| `Server.WithoutEntry` | src/server.ts:27-31 | One game after a disconnect: untouched if the socket is absent, otherwise exactly its first entry spliced out; location, end time and guesses never change |
| `Server.EmptiedBy` | src/server.ts:29-38 | A game is deleted exactly when it held the socket and splicing out the socket's entry left no players |
| `Server.WithoutPlayer` | src/server.ts:24-44 | The registry after `removePlayerFromGames`: a game is kept iff it was present and not emptied by the socket leaving, and each kept game is that game after the socket's entry is removed |
| `Server.WithoutPlayerWellFormed` | src/server.ts:37-41 | The cleanup keeps every game between 1 and 8 players, because a game whose only player leaves is deleted |
| `Server.WithoutPlayerRemovesSocket` | src/server.ts:25-43 | If the socket appears at most once per game, no remaining game contains it afterwards, and every remaining game keeps all its guesses |
| `Server.SameSocketTwice` | src/server.ts:74-75 | A socket that joined twice has two entries: its guess is named after the first entry, and a disconnect removes only that first entry |
| `Server.Visit` | src/server.ts:26-42 | One loop iteration on game `k`: the game's key goes away exactly when the socket emptied it; otherwise `k` holds the game with the socket's entry removed; every other game is unchanged |
| `Server.SweptStep` | src/server.ts:25-43 | In the cleanup loop, visiting one more game changes the registry by exactly that game's splice-or-delete |
| `Server.DeparturesStep` | src/server.ts:29-35 | Visiting one more game adds its `playerLeft` payload exactly when the game held the socket |
| `Server.SweptAll` | src/server.ts:25-43 | Once every game has been visited, the loop's registry equals `WithoutPlayer`, and a payload exists exactly for the games that held the socket |
| `Server.GameServer.constructor` | src/lib/gameState.ts:19 | The registry starts empty |
| `Server.GameServer.CreateGame` | src/server.ts:50-66 | Stores under the new id, replacing any earlier game there, a game with just the creator, the location, end time `now + 300000` and no guesses; the reply carries the id, location and end time |
| `Server.GameServer.JoinGame` | src/server.ts:70-86 | Succeeds iff the game exists and has fewer than 8 players; on success the joiner is appended after the earlier players and the reply holds the stored location and end time plus the `playerJoined` player list; on failure the registry is unchanged and the message is "Game not found or full." |
| `Server.GameServer.SubmitGuess` | src/server.ts:90-112 | On an existing game, sets the caller's guess to the coordinate and `getPlayerName`'s name, replacing any earlier guess; nothing else in the registry changes; the reply says whether results fire; on a missing game nothing changes and the message is "Game not found." |
| `Server.GameServer.LeaveGame` | src/server.ts:26-42 | One loop iteration: splices the socket's first entry out of one game, deletes the game if that emptied it, and reports the remaining players when the socket was there |
| `Server.GameServer.RemovePlayerFromGames` | src/server.ts:24-44 | Leaves the registry equal to `WithoutPlayer` of the old one and keeps the invariant; returns a `playerLeft` payload exactly for the games that held the socket, each being that game's remaining players |
| `Countdown.Remaining` | src/app/components/Countdown.tsx:13-29 | The counter after `n` effect runs stays between 0 and the start when the start is non-negative, and stays negative when the start is negative |
| `Countdown.RemainingValue` | src/app/components/Countdown.tsx:13-29 | From a non-negative start the counter goes down by one per run, reaches 0 after exactly `seconds` runs and stays there, so it never goes negative; from a negative start it never reaches 0 |
| `Countdown.Counter.constructor` | src/app/components/Countdown.tsx:10 | The counter starts at the `seconds` prop |
| `Countdown.Counter.Tick` | src/app/components/Countdown.tsx:13-29 | At 0 it fires completion (calling `onComplete` only when given) and leaves the counter alone; otherwise it decreases the counter by exactly 1; a non-negative counter stays non-negative |
| `Countdown.NatToString` | src/app/components/Countdown.tsx:61-62 | `toString` of a non-negative integer is a non-empty string of decimal digits, one character long exactly below 10, with no leading zero when it is longer |
| `Countdown.IntToString` | src/app/components/Countdown.tsx:59-62 | `toString` of an integer: for a non-negative number, digits that denote it; for a negative one, a minus sign followed by digits that denote its magnitude; that the text is canonical is stated by `IntToStringCanonical` |
| `Countdown.IntToStringCanonical` | src/app/components/Countdown.tsx:59-62 | `toString` prints canonical text: exactly one digit (after the sign for a negative number) when the magnitude is below 10, and no leading zero (after the sign) when it is 10 or more; with `IntToString`'s value clauses this fixes the text |
| `Countdown.ValueOfNatToString` | src/app/components/Countdown.tsx:61-62 | Reading back the printed digits of `n` gives `n` |
| `Countdown.SecondsField` | src/app/components/Countdown.tsx:59-60 | The seconds field is JavaScript's `%`: it differs from the counter by a multiple of 60 and keeps the counter's sign; for a counter of 0 or more it lies in `0..59` and `minutes * 60 + seconds` equals the counter |
| `Countdown.PadStart2` | src/app/components/Countdown.tsx:61-63 | `padStart(2, '0')` keeps the string as its suffix and puts only `'0'` characters before it, up to a length of at least 2 |
| `Countdown.SecondsDigits` | src/app/components/Countdown.tsx:60-63 | A seconds field below 60 renders as exactly two digits that denote it |
| `Countdown.FormatNonNegative` | src/app/components/Countdown.tsx:58-63 | For a non-negative counter the text is the minutes, a colon and the padded seconds, with no sign |
| `Countdown.Format` | src/app/components/Countdown.tsx:58-63 | For a non-negative counter the text is digits, a colon and exactly two digits; a negative counter's text starts with a minus sign |
| `Countdown.ParseParts` | src/app/components/Countdown.tsx:61-63 | A `minutes:two-digits` string whose digit runs denote `a` and `b` splits back into `a * 60 + b` |
| `Countdown.ParseFields` | src/app/components/Countdown.tsx:58-63 | Minutes `q` and seconds `r < 60`, once rendered, read back as `q * 60 + r` |
| `Countdown.FormatRoundTrip` | src/app/components/Countdown.tsx:58-63 | For every non-negative counter, reading the `m:ss` text back gives the counter |
| `Countdown.FormatMinusOne` | src/app/components/Countdown.tsx:59-63 | A counter of -1 renders as "-1:-1", because `Math.floor` rounds down and `%` keeps the sign |
| `Countdown.ColourFor` | src/app/components/Countdown.tsx:31-38 | White iff above 30, yellow iff from 11 to 30, red iff 10 or below, so exactly one colour holds for every value |
| `Countdown.ColourOnlyDarkens` | src/app/components/Countdown.tsx:23-38 | For every start, including a negative one (which stays red), the colour only moves from white towards red as the counter runs |

## Left out

- HTTP and Next.js setup, `listen`, `socket.join`, the acknowledgement callbacks and logging are not modelled (src/server.ts:3-21, 122-124). Acknowledgements and broadcast payloads are returned as values instead.
- Room delivery is not modelled. `playerJoined` goes to the whole room, joiner included. `playerLeft` goes to the remaining players. `showResults` is a boolean in the reply.
- `generateGameId` (`Math.random`) and `Date.now()` are not modelled. The game id and `now` are parameters.
- `generateRandomLocation` is not modelled. The location is an opaque `Coord` value supplied by the caller.
- JavaScript numbers are modelled as unbounded integers (`endTime`, the counter) and reals (coordinates). Floating-point rounding of `now + 300000` is not modelled.
- The registry is modelled as a map of values. A handler's in-place update of `game.players` or `game.guesses` becomes a replacement of the registry entry. Aliasing of the emitted `players` array with the stored one is not captured.
- `for...in` visits integer-like ids (such as an all-digit id from `generateGameId`) first, in ascending numeric order, and then the other ids in insertion order. The model visits them in an arbitrary order. This covers the real order, and is safe because each game's update depends only on that game.
- The registry is a plain JavaScript object, so keys inherited from `Object.prototype` (such as `"constructor"`) look like existing games and would crash the handlers. The model treats only stored keys as games.
- `Countdown.Counter.Tick`: models one run of the effect together with the timer it schedules. `setTimeout`/`clearTimeout`, unmounting, and the effect re-running when the `onComplete` identity changes are not modelled. A `Tick` at 0 stands for such a re-run.
- Countdown assumes an integer `seconds` prop. Fractional values, which would skip 0 and run below it, are not modelled.
- Style objects, React rendering, the map pages, the haversine scoring in the guess page and the context providers are not part of this model.
