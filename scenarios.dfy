/** The service tests and further examples, replayed on the model. */
module HangmanScenarios {
  import opened Ascii
  import opened HangmanGame
  import opened HangmanService

  /** The fixture of tests/test_hangman_service.py: "example" with an
      eight-position display. */
  function Fixture(id: string): Game {
    Game(id, "example", "________", [], [], false)
  }

  /** A one-letter lower-case request passes the shape check unchanged. */
  lemma SingleLetter(l: char)
    requires IsLower(l)
    ensures ParseLetter(Some([l])) == Some(l) && Lowered(Some([l])) == l
  {
  }

  /** A new lower-case letter that is in the word, as a request. */
  lemma HitOn(g: Game, l: char)
    requires WellFormed(g) && !g.gameOver && IsLower(l)
    requires l !in g.correctGuesses && l !in g.incorrectGuesses && l in g.word
    ensures var hit := g.(correctGuesses := g.correctGuesses + [l],
                          displayWord := Reveal(g.word, g.displayWord, l));
      Guess(Some(g), Some([l])) ==
        if FullyRevealed(hit.displayWord) then Won(hit.(gameOver := true)) else Processed(hit)
  {
    SingleLetter(l);
  }

  /** A new lower-case letter that is not in the word, as a request. */
  lemma MissOn(g: Game, l: char)
    requires WellFormed(g) && !g.gameOver && IsLower(l)
    requires l !in g.correctGuesses && l !in g.incorrectGuesses && l !in g.word
    ensures var miss := g.(incorrectGuesses := g.incorrectGuesses + [l]);
      Guess(Some(g), Some([l])) ==
        if |miss.incorrectGuesses| >= MaxIncorrectGuesses then Lost(miss.(gameOver := true))
        else Processed(miss)
  {
    SingleLetter(l);
  }

  /** Guessing "e" on the fixture reveals positions 0 and 6, records the
      letter once, and writes the record back. */
  method GuessEOnFixture(id: string) returns (reply: GuessReply, stored: Game)
    ensures reply == Processed(Fixture(id).(displayWord := "e_____e_", correctGuesses := "e"))
    ensures stored == reply.game
  {
    var store := new GameStore();
    store.games := map[id := Fixture(id)];
    assert "example"[0] == 'e';
    HitOn(Fixture(id), 'e');
    forall i | 0 <= i < 8
      ensures Reveal("example", "________", 'e')[i] == "e_____e_"[i]
    {
    }
    assert Reveal("example", "________", 'e') == "e_____e_";
    assert !IsAlpha("e_____e_"[1]);
    reply := store.MakeGuess(id, Some("e"));
    stored := store.games[id];
  }

  /** "cat" is won by c, A (lowered to a), t; the last guess shows the whole word. */
  lemma CatIsWon(id: string)
    ensures var g0 := Game(id, "cat", "___", [], [], false);
      var r1 := Guess(Some(g0), Some("c"));
      r1.Processed? &&
      var r2 := Guess(Some(r1.game), Some("A"));
      r2.Processed? &&
      var r3 := Guess(Some(r2.game), Some("t"));
      r3.Won? && r3.game.displayWord == "cat" && r3.game.gameOver
  {
    var g0 := Game(id, "cat", "___", [], [], false);
    assert "cat"[0] == 'c' && "cat"[1] == 'a' && "cat"[2] == 't';
    HitOn(g0, 'c');
    assert Reveal("cat", "___", 'c') == "c__";
    assert !IsAlpha("c__"[1]);
    var g1 := g0.(correctGuesses := "c", displayWord := "c__");
    assert Guess(Some(g0), Some("c")) == Processed(g1);
    GuessIgnoresCase(Some(g1), 'A');
    HitOn(g1, 'a');
    assert Reveal("cat", "c__", 'a') == "ca_";
    assert !IsAlpha("ca_"[2]);
    var g2 := g1.(correctGuesses := "ca", displayWord := "ca_");
    assert Guess(Some(g1), Some("A")) == Processed(g2);
    HitOn(g2, 't');
    assert Reveal("cat", "ca_", 't') == "cat";
  }

  /** Six distinct misses lose a fresh "example" game, but the loss is not
      written back: the stored record keeps five misses, so a seventh
      distinct miss loses again instead of being refused as already over. */
  method LossIsNotStored(id: string) returns (sixth: GuessReply, seventh: GuessReply, stored: Game)
    ensures sixth.Lost? && sixth.game.incorrectGuesses == "zqjkvw"
    ensures seventh.Lost? && seventh.game.incorrectGuesses == "zqjkvb"
    ensures stored.incorrectGuesses == "zqjkv" && !stored.gameOver
  {
    var store := new GameStore();
    var _ := store.StartNewGame(id);
    FiveMisses(store, id);
    var g5 := store.games[id];
    MissOn(g5, 'w');
    sixth := store.MakeGuess(id, Some("w"));
    assert store.games[id] == g5;
    MissOn(g5, 'b');
    seventh := store.MakeGuess(id, Some("b"));
    stored := store.games[id];
  }

  /** The first five misses of `LossIsNotStored`, each written back. */
  method FiveMisses(store: GameStore, id: string)
    requires store.Valid() && id in store.games && store.games[id] == NewGame(id, DefaultWord)
    modifies store
    ensures store.Valid()
    ensures store.games == old(store.games)[id := NewGame(id, DefaultWord).(incorrectGuesses := "zqjkv")]
  {
    Miss(store, id, 'z', "", "z");
    Miss(store, id, 'q', "z", "zq");
    Miss(store, id, 'j', "zq", "zqj");
    Miss(store, id, 'k', "zqj", "zqjk");
    Miss(store, id, 'v', "zqjk", "zqjkv");
  }

  /** One miss on a fresh "example" game that has the misses `before`. */
  method Miss(store: GameStore, id: string, l: char, before: seq<char>, after: seq<char>)
    requires store.Valid() && id in store.games
    requires store.games[id] == NewGame(id, DefaultWord).(incorrectGuesses := before)
    requires IsLower(l) && l !in DefaultWord && l !in before && |before| < 5
    requires after == before + [l]
    modifies store
    ensures store.Valid()
    ensures store.games == old(store.games)[id := NewGame(id, DefaultWord).(incorrectGuesses := after)]
  {
    MissOn(store.games[id], l);
    var _ := store.MakeGuess(id, Some([l]));
  }

  /** Deleting a game succeeds once; deleting it again reports not found. */
  method DeleteTwice(id: string) returns (first: EndReply, second: EndReply, after: Option<Game>)
    ensures first == Deleted && second == NotFound && after == None
  {
    var store := new GameStore();
    var _ := store.StartNewGame(id);
    first := store.EndGame(id);
    second := store.EndGame(id);
    after := store.GetGameStatus(id);
  }
}
