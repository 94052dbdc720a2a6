# Hangman service, modelled in Dafny

This project models the game logic of the Hangman API:
`HangmanService` in `hangman_app/services/hangman_service.py`. Clients
start a game, guess letters one at a time, read one game or all games, and
delete a game. Every game is a document in the `hangman_games` collection.
The HTTP layer around the service is not modelled.

Layout:

- `ascii.dfy` (module `Ascii`): `str.isalpha` and `str.lower`, restricted to
  ASCII letters.
- `game.dfy` (module `HangmanGame`): the record `Game`, with the fields
  `game_id`, `word`, `display_word`, `correct_guesses`, `incorrect_guesses`
  and `game_over`. It also holds the replies of `make_guess` and `Guess`, a
  pure function giving the reply of `make_guess` for the record it fetched
  and the request's `letter` field. The lemmas here cover check order,
  case-insensitivity, duplicate rejection, hits, misses, win and loss, and
  the record invariants a guess preserves.
- `service.dfy` (module `HangmanService`): the class `GameStore`, whose one
  field `games: map<string, Game>` stands for the collection. Each static
  method of the service is a method of this class.
  - `MakeGuess` works step by step, as the source does, and is proved equal
    to `Guess` plus `StoreAfterGuess`.
  - `StoreAfterGuess` gives the collection after a reply;
    `WrittenBackExactly` says, in terms of the request, exactly when it changes.
  - `RevealLetter` is the reveal loop over the indices of the word.
- `replay.dfy` (module `HangmanReplay`): runs a sequence of service calls
  and proves what holds of every collection the service builds.
- `scenarios.dfy` (module `HangmanScenarios`): the service tests and
  further examples, replayed on the model.

What the source does and the model keeps:

- The checks in `make_guess` run in this order, and the first one that
  fails decides the reply:
  1. The game is absent or over (404).
  2. The letter is missing, empty, not alphabetic, or not one character long (400).
  3. The letter is lowered and then is already among the guesses (400).
- A hit appends the letter to `correct_guesses` and reveals it everywhere
  in the display. A miss appends it to `incorrect_guesses`.
- A game is won when the whole display is alphabetic, and lost at six
  misses or more.
- Only a guess that leaves the game going is written back (`update_one`).
  The won and lost branches return before the write. So the stored record
  never becomes over: it stays at its state before the last guess.
  `HangmanReplay.RunKeepsLive` proves that no sequence of calls ever stores
  a finished game. `HangmanReplay.NotFoundOnlyWhenAbsent` proves that, on a
  collection the service built, the "already over" half of the 404 never
  applies.
- A loss is not written back, so a seventh distinct miss is applied to the
  stored five-miss record and loses again. It is not refused as already
  over (hangman_service.py:99-104; `HangmanScenarios.LossIsNotStored`).
- `start_new_game` builds a display exactly as long as the word (:34), but
  the service tests use eight positions for the seven-letter "example"
  (tests/test_hangman_service.py:86). The model requires only
  `|display_word| >= |word|`, which is what the reveal loop needs.
  `HangmanGame.OversizedDisplayNeverWins` shows that such a game can never
  be won, because its extra `_` is never revealed.

Environment and modelling choices:

- `uuid.uuid4()` becomes an `id` parameter that must not be in use yet.
- The request body `data` is represented by its `letter` field, as an
  `Option<string>`. `None` stands for a missing letter and also for a falsy
  non-string one (`0`, `false`, `[]`, `{}`): `not letter` at :80 gives
  these the same invalid-guess reply.
- A guess that is alphabetic and one character long is one ASCII letter.
  Lowering is ASCII lowering.

## Model

| member | source | states |
|---|---|---|
| `Ascii.ToLower` | hangman_app/services/hangman_service.py:83 | a character is an ASCII letter exactly when its lowering is a lower-case letter; an upper-case letter goes to the same alphabet position in lower case; anything else is unchanged |
| `Ascii.ToLowerIdempotent` | hangman_app/services/hangman_service.py:83 | lowering an already lowered letter changes nothing |
| `Ascii.ToLowerIgnoresCase` | hangman_app/services/hangman_service.py:83-84 | two letters lower to the same guess exactly when they differ at most in case |
| `HangmanGame.NewGame` | hangman_app/services/hangman_service.py:30-38 | the new record has the given id and word, a display of `_` exactly as long as the word, no guesses, and is not over |
| `HangmanGame.ParseLetter` | hangman_app/services/hangman_service.py:79-81 | a letter field is accepted exactly when it is present, one character long and alphabetic; the accepted character is that one |
| `HangmanGame.Guess` | hangman_app/services/hangman_service.py:75-102 | an absent or finished game is refused with 404 whatever the letter; a live game with a malformed letter is refused as invalid; a duplicate refusal carries the lowered letter; an accepted guess keeps id, word and display length, and the game is over exactly when it was won or lost |
| `HangmanGame.DuplicateIsRejected` | hangman_app/services/hangman_service.py:83-85 | a well-shaped letter whose lowered form is already among the correct or incorrect guesses is refused as a duplicate |
| `HangmanGame.AcceptedExactly` | hangman_app/services/hangman_service.py:76-85 | a guess is accepted if and only if the game is live, the letter is well-shaped, and its lowered form was not guessed before |
| `HangmanGame.GuessIgnoresCase` | hangman_app/services/hangman_service.py:83 | guessing a letter and guessing its lower-case form give the same reply |
| `HangmanGame.HitEffect` | hangman_app/services/hangman_service.py:87-95 | a new letter in the word is appended once to the correct guesses, shown at exactly the indices where the word has it with every other position unchanged, the misses unchanged; won exactly when the display is then all letters |
| `HangmanGame.MissEffect` | hangman_app/services/hangman_service.py:97-102 | a new letter not in the word is appended to the incorrect guesses, display and correct guesses unchanged; lost exactly when that makes at least six misses |
| `HangmanGame.GuessKeepsListsSound` | hangman_app/services/hangman_service.py:84-98 | every accepted guess keeps the two guess lists free of repeats and disjoint |
| `HangmanGame.NewGameConsistent` | hangman_app/services/hangman_service.py:30-38 | a fresh game for a non-empty word satisfies the record invariants |
| `HangmanGame.RevealedIsWord` | hangman_app/services/hangman_service.py:93 | in a consistent game an all-letter display equals the word |
| `HangmanGame.GuessPreservesConsistent` | hangman_app/services/hangman_service.py:83-102 | an accepted guess on a consistent game yields a consistent game (guess lists, revealed positions, over iff won or six misses); a won game shows the word, a lost one has exactly six misses |
| `HangmanGame.RepeatedGuessRejected` | hangman_app/services/hangman_service.py:84-85 | repeating a processed guess is refused as a duplicate |
| `HangmanGame.OversizedDisplayNeverWins` | hangman_app/services/hangman_service.py:89-93 | a non-letter display position beyond the word is never revealed, so such a game is never won |
| `HangmanService.WrittenBackExactly` | hangman_app/services/hangman_service.py:93-105 | the collection changes exactly when the game is live, the letter is well-shaped and new, and the guess neither wins nor loses (a hit that leaves a non-letter on the display, or a miss that makes fewer than six); only the guessed record can change |
| `HangmanService.RevealLetter` | hangman_app/services/hangman_service.py:89-91 | the loop yields a display of the same length with the letter at every index where the word has it and every other position unchanged |
| `HangmanService.GameStore.StartNewGame` | hangman_app/services/hangman_service.py:29-40 | returns the given id and adds exactly one record under it, the fresh "example" game; no other entry changes |
| `HangmanService.GameStore.GetAllGameStatus` | hangman_app/services/hangman_service.py:50-51 | returns every stored record exactly once (same count, distinct ids, each the record stored under its id) |
| `HangmanService.GameStore.GetGameStatus` | hangman_app/services/hangman_service.py:62-63 | returns the record stored under the id, or none when there is none |
| `HangmanService.GameStore.MakeGuess` | hangman_app/services/hangman_service.py:75-105 | the reply is `Guess` of the fetched record and the letter; the collection afterwards is `StoreAfterGuess` of that reply |
| `HangmanService.GameStore.EndGame` | hangman_app/services/hangman_service.py:116-119 | reports deleted exactly when a record with the id existed, and the collection afterwards lacks exactly that id |
| `HangmanReplay.Step` | hangman_app/services/hangman_service.py:29-119 | one start, guess or end request keeps every record filed under its own id with enough display positions |
| `HangmanReplay.Run` | hangman_app/services/hangman_service.py:29-119 | a sequence of requests keeps the collection well-formed |
| `HangmanReplay.StepKeepsLive` | hangman_app/services/hangman_service.py:93-105 | after any one request, every stored record is still consistent and not over |
| `HangmanReplay.RunKeepsLive` | hangman_app/services/hangman_service.py:93-105 | no sequence of requests ever stores a finished game, because wins and losses are never written back |
| `HangmanReplay.NotFoundOnlyWhenAbsent` | hangman_app/services/hangman_service.py:76-77 | on a collection the service built from empty, a guess is refused with 404 exactly when the id is absent |
| `HangmanReplay.TerminalReplyRepeats` | hangman_app/services/hangman_service.py:93-104 | a winning or losing guess leaves the collection unchanged, so repeating it gets the same reply |
| `HangmanReplay.EndTwice` | hangman_app/services/hangman_service.py:116-119 | after deleting an existing id, the id is absent, a second delete changes nothing, and guesses on it are refused with 404 |
| `HangmanScenarios.GuessEOnFixture` | tests/test_hangman_service.py:72-115 | "e" on the eight-position "example" fixture gives display `e_____e_`, correct guesses `e`, "processed", and is written back |
| `HangmanScenarios.CatIsWon` | hangman_app/services/hangman_service.py:87-95 | on "cat", the guesses c, A, t are processed, processed, won, and the final display is `cat` |
| `HangmanScenarios.LossIsNotStored` | hangman_app/services/hangman_service.py:97-104 | on a fresh game, the sixth distinct miss loses; the stored record keeps five misses, so a seventh distinct miss loses again |
| `HangmanScenarios.DeleteTwice` | hangman_app/services/hangman_service.py:116-119 | as in tests/test_hangman_service.py:117-143, deleting a started game succeeds; deleting it again reports not found, and the game can no longer be read |

## Left out

- HangmanService.GameStore.GetAllGameStatus: does not fix the order of the
  records, because a map has no order and the source returns MongoDB's
  natural order.
- The Flask/flask_restx controller, the request schema and app bootstrap:
  HTTP routing and serialisation (`json_util.dumps`) only carry the replies
  modelled here.
- MongoDB itself: queries, the `{'_id': 0}` projection, the internal `_id`
  field, BSON, and the result objects of `insert_one`, `update_one` and
  `delete_one` beyond "did a record exist".
- Duplicate `game_id` documents: the collection is a map, so at most one
  record per id. `find_one` on duplicates is not modelled.
- `uuid.uuid4()` randomness and collisions: the id is a parameter, required
  unused.
- Concurrency: two guesses on one game can both read the record and the
  later write wins. The methods are modelled as atomic.
- Request bodies that are not a JSON object, or whose `letter` is a truthy
  non-string (a number other than 0, `true`, a non-empty list or object).
  The source raises an exception at `letter.isalpha()` (:80) for these.
  Falsy non-strings are modelled as a missing letter (see above).
- Unicode behaviour of `str.isalpha` and `str.lower`: only ASCII letters
  count as alphabetic, and lowering is ASCII lowering.
- Store failures (connectivity, serialisation), which the source does not
  handle either.
- A stored record whose display is shorter than its word.
  `GameStore.Valid` requires every record to have at least as many display
  positions as letters, so such records are not modelled. In the source,
  a guess on one raises `IndexError` only when the guessed letter occurs in
  the word at an index at or past the display's length (:89-91). Other
  guesses on it succeed, and a miss is written back.
