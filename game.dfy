/** The game record of the hangman_games collection and the rules that
    `HangmanService.make_guess` applies to one record and one guessed letter,
    as pure functions. The store that holds the records is in service.dfy. */
module HangmanGame {
  import opened Ascii

  datatype Option<T> = None | Some(value: T)

  /** One document of the collection, with the field names of
      `start_new_game` (`game_id`, `word`, `display_word`, `correct_guesses`,
      `incorrect_guesses`, `game_over`). */
  datatype Game = Game(
    gameId: string,
    word: string,
    displayWord: seq<char>,
    correctGuesses: seq<char>,
    incorrectGuesses: seq<char>,
    gameOver: bool)

  /** Marks a position of `displayWord` that is not revealed yet. */
  const Placeholder: char := '_'

  /** The word `start_new_game` always uses. */
  const DefaultWord: string := "example"

  /** A miss that brings the number of incorrect guesses to this many ends the game. */
  const MaxIncorrectGuesses: nat := 6

  /** The errors `make_guess` returns, with their status codes and messages. */
  datatype GuessError = NotFoundOrOver | InvalidGuess | AlreadyGuessed(letter: char)
  {
    function StatusCode(): int {
      if NotFoundOrOver? then 404 else 400
    }

    function Message(): string {
      match this
      case NotFoundOrOver => "Game not found or already over"
      case InvalidGuess => "Invalid guess, please provide a single letter"
      case AlreadyGuessed(c) => "You already guessed the letter " + [c]
    }
  }

  /** What `make_guess` returns: an error, or a message together with the
      updated game (status 200). */
  datatype GuessReply =
    | Rejected(error: GuessError)
    | Won(game: Game)
    | Lost(game: Game)
    | Processed(game: Game)
  {
    function StatusCode(): int {
      if Rejected? then error.StatusCode() else 200
    }

    function Message(): string {
      match this
      case Rejected(e) => e.Message()
      case Won(_) => "Congratulations! You guessed the word."
      case Lost(_) => "Game over! You reached the maximum incorrect guesses."
      case Processed(_) => "Guess processed successfully"
    }
  }

  /** `make_guess` writes `display_word[i]` for every index `i` of `word`,
      so it needs at least that many display positions. */
  predicate WellFormed(g: Game) {
    |g.displayWord| >= |g.word|
  }

  /** The record `start_new_game` inserts for `id` and `word`. */
  function NewGame(id: string, word: string): (g: Game)
    ensures g.gameId == id && g.word == word
    ensures |g.displayWord| == |word|
    ensures forall i :: 0 <= i < |g.displayWord| ==> g.displayWord[i] == Placeholder
    ensures g.correctGuesses == [] && g.incorrectGuesses == [] && !g.gameOver
  {
    Game(id, word, seq(|word|, _ => Placeholder), [], [], false)
  }

  /** The `letter` field of a request, if it is accepted: present, non-empty,
      alphabetic and one character long. */
  function ParseLetter(letter: Option<string>): (r: Option<char>)
    ensures r.Some? <==> letter.Some? && |letter.value| == 1 && IsAlpha(letter.value[0])
    ensures r.Some? ==> r.value == letter.value[0]
  {
    if letter.None? || letter.value == "" || !IsAlphaString(letter.value) || |letter.value| != 1
    then None
    else Some(letter.value[0])
  }

  /** `all(char.isalpha() for char in display_word)`: the win test. */
  predicate FullyRevealed(display: seq<char>) {
    forall i :: 0 <= i < |display| ==> IsAlpha(display[i])
  }

  /** Reference definition of the reveal loop: `display` with `letter` at
      exactly the indices where `word` holds it. */
  function Reveal(word: string, display: seq<char>, letter: char): seq<char>
    requires |display| >= |word|
  {
    seq(|display|, i requires 0 <= i < |display| =>
      if i < |word| && word[i] == letter then letter else display[i])
  }

  /** The game `make_guess` fetched is live when it exists and is not over. */
  predicate Live(found: Option<Game>) {
    found.Some? && !found.value.gameOver
  }

  /** The reply of `make_guess` for the record it fetched (`None` when there
      is none) and the request's `letter` field. The checks run in the
      source's order: existence and `game_over`, then the letter's shape,
      then (after lowering) duplicates; only then is the letter a hit or a
      miss. */
  function Guess(found: Option<Game>, letter: Option<string>): (r: GuessReply)
    requires found.Some? ==> WellFormed(found.value)
    ensures !Live(found) ==> r == Rejected(NotFoundOrOver)
    ensures Live(found) && ParseLetter(letter).None? ==> r == Rejected(InvalidGuess)
    ensures r.Rejected? && r.error.AlreadyGuessed? ==>
              Live(found) && ParseLetter(letter).Some? &&
              r.error.letter == ToLower(ParseLetter(letter).value)
    ensures !r.Rejected? ==>
              && Live(found) && WellFormed(r.game)
              && r.game.gameId == found.value.gameId
              && r.game.word == found.value.word
              && |r.game.displayWord| == |found.value.displayWord|
              && r.game.gameOver == !r.Processed?
  {
    if !Live(found) then Rejected(NotFoundOrOver)
    else
      var g := found.value;
      match ParseLetter(letter)
      case None => Rejected(InvalidGuess)
      case Some(c) =>
        var l := ToLower(c);
        if l in g.correctGuesses || l in g.incorrectGuesses then
          Rejected(AlreadyGuessed(l))
        else if l in g.word then
          var hit := g.(correctGuesses := g.correctGuesses + [l],
                        displayWord := Reveal(g.word, g.displayWord, l));
          if FullyRevealed(hit.displayWord) then Won(hit.(gameOver := true)) else Processed(hit)
        else
          var miss := g.(incorrectGuesses := g.incorrectGuesses + [l]);
          if |miss.incorrectGuesses| >= MaxIncorrectGuesses then Lost(miss.(gameOver := true))
          else Processed(miss)
  }

  /** The letter a live game receives once the request passed the shape check. */
  function Lowered(letter: Option<string>): char
    requires ParseLetter(letter).Some?
  {
    ToLower(ParseLetter(letter).value)
  }

  /** A letter already guessed, right or wrong, is rejected whatever its case,
      and the reply carries its lower-case form. */
  lemma DuplicateIsRejected(g: Game, letter: Option<string>)
    requires WellFormed(g) && !g.gameOver && ParseLetter(letter).Some?
    requires Lowered(letter) in g.correctGuesses || Lowered(letter) in g.incorrectGuesses
    ensures Guess(Some(g), letter) == Rejected(AlreadyGuessed(Lowered(letter)))
  {
  }

  /** Only a well-shaped, new letter for a live game is accepted. */
  lemma AcceptedExactly(found: Option<Game>, letter: Option<string>)
    requires found.Some? ==> WellFormed(found.value)
    ensures !Guess(found, letter).Rejected? <==>
              && Live(found) && ParseLetter(letter).Some?
              && Lowered(letter) !in found.value.correctGuesses
              && Lowered(letter) !in found.value.incorrectGuesses
  {
  }

  /** `"E"` and `"e"` are the same guess. */
  lemma GuessIgnoresCase(found: Option<Game>, c: char)
    requires found.Some? ==> WellFormed(found.value)
    requires IsAlpha(c)
    ensures Guess(found, Some([c])) == Guess(found, Some([ToLower(c)]))
  {

  }

  /** A new letter that occurs in the word is appended once to the correct
      guesses and shown at exactly the indices where the word holds it; the
      misses stay as they were. The game is won exactly when the display is
      then all letters. */
  lemma HitEffect(g: Game, letter: Option<string>)
    requires WellFormed(g) && !g.gameOver && ParseLetter(letter).Some?
    requires Lowered(letter) !in g.correctGuesses && Lowered(letter) !in g.incorrectGuesses
    requires Lowered(letter) in g.word
    ensures var r := Guess(Some(g), letter); var l := Lowered(letter);
      && (r.Won? || r.Processed?)
      && r.game.correctGuesses == g.correctGuesses + [l]
      && r.game.incorrectGuesses == g.incorrectGuesses
      && |r.game.displayWord| == |g.displayWord|
      && (forall i :: 0 <= i < |g.word| && g.word[i] == l ==> r.game.displayWord[i] == l)
      && (forall i :: 0 <= i < |g.displayWord| && !(i < |g.word| && g.word[i] == l) ==>
            r.game.displayWord[i] == g.displayWord[i])
      && (r.Won? <==> FullyRevealed(r.game.displayWord))
  {
  }

  /** A new letter that does not occur in the word is appended to the
      incorrect guesses; the display and the correct guesses stay as they
      were. The game is lost exactly when that makes six misses or more. */
  lemma MissEffect(g: Game, letter: Option<string>)
    requires WellFormed(g) && !g.gameOver && ParseLetter(letter).Some?
    requires Lowered(letter) !in g.correctGuesses && Lowered(letter) !in g.incorrectGuesses
    requires Lowered(letter) !in g.word
    ensures var r := Guess(Some(g), letter);
      && (r.Lost? || r.Processed?)
      && r.game.incorrectGuesses == g.incorrectGuesses + [Lowered(letter)]
      && r.game.correctGuesses == g.correctGuesses
      && r.game.displayWord == g.displayWord
      && (r.Lost? <==> |g.incorrectGuesses| + 1 >= MaxIncorrectGuesses)
  {
  }

  /** No repeated element. */
  ghost predicate NoDuplicates(s: seq<char>) {
    forall i, j :: 0 <= i < j < |s| ==> s[i] != s[j]
  }

  /** No element of `a` occurs in `b`. */
  ghost predicate Disjoint(a: seq<char>, b: seq<char>) {
    forall i :: 0 <= i < |a| ==> a[i] !in b
  }

  ghost predicate GuessListsSound(g: Game) {
    NoDuplicates(g.correctGuesses) && NoDuplicates(g.incorrectGuesses) &&
    Disjoint(g.correctGuesses, g.incorrectGuesses)
  }

  /** `make_guess` keeps the two guess lists disjoint and free of repeats. */
  lemma GuessKeepsListsSound(found: Option<Game>, letter: Option<string>)
    requires found.Some? ==> WellFormed(found.value)
    requires found.Some? ==> GuessListsSound(found.value)
    ensures var r := Guess(found, letter); !r.Rejected? ==> GuessListsSound(r.game)
  {

  }

  /** The record invariants a game created by `start_new_game` keeps under
      `make_guess`: one display position per letter of the word; guesses are
      distinct lower-case letters, the correct ones in the word and the
      incorrect ones not; a position shows its letter exactly when that
      letter was guessed; and the game is over exactly when the display is
      all letters or six misses were made. */
  ghost predicate Consistent(g: Game) {
    && |g.displayWord| == |g.word|
    && NoDuplicates(g.correctGuesses)
    && NoDuplicates(g.incorrectGuesses)
    && (forall i :: 0 <= i < |g.correctGuesses| ==>
          IsLower(g.correctGuesses[i]) && g.correctGuesses[i] in g.word)
    && (forall i :: 0 <= i < |g.incorrectGuesses| ==>
          IsLower(g.incorrectGuesses[i]) && g.incorrectGuesses[i] !in g.word)
    && (forall i :: 0 <= i < |g.word| ==>
          g.displayWord[i] == if g.word[i] in g.correctGuesses then g.word[i] else Placeholder)
    && (g.gameOver <==>
          FullyRevealed(g.displayWord) || |g.incorrectGuesses| >= MaxIncorrectGuesses)
  }

  /** A fresh game for a non-empty word satisfies the invariants. */
  lemma NewGameConsistent(id: string, word: string)
    requires |word| > 0
    ensures Consistent(NewGame(id, word))
  {
    var g := NewGame(id, word);
    assert !IsAlpha(g.displayWord[0]);
  }

  /** In a consistent game a display that is all letters is the word itself. */
  lemma RevealedIsWord(g: Game)
    requires Consistent(g) && FullyRevealed(g.displayWord)
    ensures g.displayWord == g.word
  {

  }

  /** Every accepted guess on a consistent game yields a consistent game; a
      won game shows the whole word and a lost one has exactly six misses. */
  lemma GuessPreservesConsistent(g: Game, letter: Option<string>)
    requires Consistent(g)
    ensures var r := Guess(Some(g), letter);
      && (!r.Rejected? ==> Consistent(r.game))
      && (r.Won? ==> r.game.displayWord == r.game.word)
      && (r.Lost? ==> |r.game.incorrectGuesses| == MaxIncorrectGuesses)
  {

  }

  /** A guess that was processed, repeated in any case, is rejected as a
      duplicate. */
  lemma RepeatedGuessRejected(g: Game, letter: Option<string>)
    requires WellFormed(g)
    ensures var r := Guess(Some(g), letter);
      r.Processed? ==> Guess(Some(r.game), letter) == Rejected(AlreadyGuessed(Lowered(letter)))
  {
  }

  /** A display position beyond the word that is not a letter can never be
      revealed, so no guess wins such a game (the test fixtures give the
      seven-letter "example" an eight-position display). */
  lemma OversizedDisplayNeverWins(g: Game, letter: Option<string>, k: nat)
    requires WellFormed(g) && |g.word| <= k < |g.displayWord| && !IsAlpha(g.displayWord[k])
    ensures !Guess(Some(g), letter).Won?
  {
    var r := Guess(Some(g), letter);
    if !r.Rejected? {
      assert r.game.displayWord[k] == g.displayWord[k];
    }
  }
}
