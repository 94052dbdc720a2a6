/** `HangmanService` over the hangman_games collection. The collection is a
    map from `game_id` to the record stored under it; each static method of
    the service is a method of `GameStore` that changes that map. */
module HangmanService {
  import opened Ascii
  import opened HangmanGame

  /** `find_one({'game_id': id})`: the record stored under `id`, if any. */
  function Lookup(games: map<string, Game>, id: string): (r: Option<Game>)
    ensures r.Some? <==> id in games
    ensures r.Some? ==> r.value == games[id]
  {
    if id in games then Some(games[id]) else None
  }

  /** Every stored record is filed under its own `game_id` and can take a guess. */
  ghost predicate ValidStore(games: map<string, Game>) {
    forall id :: id in games ==> games[id].gameId == id && WellFormed(games[id])
  }

  /** The collection after `make_guess` replied `r` for `id`: only a
      processed guess reaches `update_one`; a win or a loss returns before
      it, and every error returns before anything is changed. */
  function StoreAfterGuess(games: map<string, Game>, id: string, r: GuessReply): (s: map<string, Game>)
    ensures r.Processed? ==> s == games[id := r.game]
    ensures !r.Processed? ==> s == games
  {
    if r.Processed? then games[id := r.game] else games
  }

  /** `update_one` at line 104 is reached, and the collection changes, exactly
      when the game is live, the letter is well-shaped and new, and the guess
      neither wins nor loses: a hit that still leaves a non-letter on the
      display, or a miss that makes fewer than six. Only the guessed record
      can change. */
  lemma WrittenBackExactly(games: map<string, Game>, id: string, letter: Option<string>)
    requires ValidStore(games)
    ensures var s := StoreAfterGuess(games, id, Guess(Lookup(games, id), letter));
      && (s != games <==>
            && id in games && !games[id].gameOver
            && ParseLetter(letter).Some?
            && Lowered(letter) !in games[id].correctGuesses
            && Lowered(letter) !in games[id].incorrectGuesses
            && (if Lowered(letter) in games[id].word
                then !FullyRevealed(Reveal(games[id].word, games[id].displayWord, Lowered(letter)))
                else |games[id].incorrectGuesses| + 1 < MaxIncorrectGuesses))
      && s.Keys == games.Keys
      && (forall k :: k in games && k != id ==> s[k] == games[k])
  {
  }

  /** What `end_game` returns. */
  datatype EndReply = Deleted | NotFound
  {
    function StatusCode(): int {
      if Deleted? then 200 else 404
    }

    function Message(): string {
      if Deleted? then "Hangman game deleted successfully" else "Hangman game not found"
    }
  }

  /** The loop of `make_guess` over `enumerate(word)`: writes `letter` into
      `display` at every index where `word` holds it. */
  method RevealLetter(word: string, display: seq<char>, letter: char) returns (revealed: seq<char>)
    requires |display| >= |word|
    ensures |revealed| == |display|
    ensures forall i :: 0 <= i < |word| && word[i] == letter ==> revealed[i] == letter
    ensures forall i :: 0 <= i < |display| && !(i < |word| && word[i] == letter) ==>
              revealed[i] == display[i]
  {
    revealed := display;
    for i := 0 to |word|
      invariant |revealed| == |display|
      invariant forall k :: 0 <= k < i && word[k] == letter ==> revealed[k] == letter
      invariant forall k :: 0 <= k < |display| && !(k < i && word[k] == letter) ==>
                  revealed[k] == display[k]
    {
      if word[i] == letter {
        revealed := revealed[i := letter];
      }
    }
  }

  /** The hangman_games collection. */
  class GameStore {
    var games: map<string, Game>

    ghost predicate Valid()
      reads this
    {
      ValidStore(games)
    }

    constructor ()
      ensures Valid() && games == map[]
    {
      games := map[];
    }

    /** `start_new_game`: inserts a fresh "example" game under `id` (the
        source draws a new uuid4; here the caller supplies an unused id) and
        returns that id. */
    method StartNewGame(id: string) returns (gameId: string)
      requires Valid() && id !in games
      modifies this
      ensures Valid()
      ensures gameId == id
      ensures games == old(games)[id := NewGame(id, DefaultWord)]
    {
      games := games[id := NewGame(id, DefaultWord)];
      gameId := id;
    }

    /** `get_all_game_status`: every stored record once, in no particular order. */
    method GetAllGameStatus() returns (all: seq<Game>)
      requires Valid()
      ensures |all| == |games|
      ensures forall i :: 0 <= i < |all| ==> all[i].gameId in games && games[all[i].gameId] == all[i]
      ensures forall i, j :: 0 <= i < j < |all| ==> all[i].gameId != all[j].gameId
      ensures forall id :: id in games ==> games[id] in all
    {
      var remaining := games.Keys;
      all := [];
      while remaining != {}
        invariant remaining <= games.Keys
        invariant |all| + |remaining| == |games|
        invariant forall i :: 0 <= i < |all| ==>
                    all[i].gameId in games && games[all[i].gameId] == all[i] && all[i].gameId !in remaining
        invariant forall i, j :: 0 <= i < j < |all| ==> all[i].gameId != all[j].gameId
        invariant forall id :: id in games && id !in remaining ==> games[id] in all
        decreases |remaining|
      {
        var id :| id in remaining;
        all := all + [games[id]];
        remaining := remaining - {id};
      }
    }

    /** `get_game_status`: the record stored under `id`, or none. */
    method GetGameStatus(id: string) returns (r: Option<Game>)
      requires Valid()
      ensures r.Some? <==> id in games
      ensures r.Some? ==> r.value == games[id] && r.value.gameId == id
    {
      if id in games {
        r := Some(games[id]);
      } else {
        r := None;
      }
    }

    /** `make_guess`: fetches the record for `id`, validates and lowers the
        letter, applies it, and writes the record back only when the game
        goes on. */
    method MakeGuess(id: string, letter: Option<string>) returns (reply: GuessReply)
      requires Valid()
      modifies this
      ensures Valid()
      ensures reply == Guess(Lookup(old(games), id), letter)
      ensures games == StoreAfterGuess(old(games), id, reply)
    {
      if id !in games || games[id].gameOver {
        return Rejected(NotFoundOrOver);
      }
      var game := games[id];

      if letter.None? || letter.value == "" || !IsAlphaString(letter.value) || |letter.value| != 1 {
        return Rejected(InvalidGuess);
      }

      var l := ToLower(letter.value[0]);
      if l in game.correctGuesses || l in game.incorrectGuesses {
        return Rejected(AlreadyGuessed(l));
      }

      if l in game.word {
        game := game.(correctGuesses := game.correctGuesses + [l]);
        var display := RevealLetter(game.word, game.displayWord, l);
        assert display == Reveal(game.word, game.displayWord, l);
        game := game.(displayWord := display);
        if FullyRevealed(game.displayWord) {
          game := game.(gameOver := true);
          return Won(game);
        }
      } else {
        game := game.(incorrectGuesses := game.incorrectGuesses + [l]);
        if |game.incorrectGuesses| >= MaxIncorrectGuesses {
          game := game.(gameOver := true);
          return Lost(game);
        }
      }

      games := games[id := game];
      reply := Processed(game);
    }

    /** `end_game`: deletes the record for `id` and reports whether there
        was one. */
    method EndGame(id: string) returns (reply: EndReply)
      requires Valid()
      modifies this
      ensures Valid()
      ensures reply == Deleted <==> id in old(games)
      ensures games == old(games) - {id}
    {
      var existed := id in games;
      games := games - {id};
      reply := if existed then Deleted else NotFound;
    }
  }
}
