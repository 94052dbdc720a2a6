/** Sequences of service calls against the collection, and what holds of
    every collection the service itself builds. */
module HangmanReplay {
  import opened HangmanGame
  import opened HangmanService

  /** One call of the service that changes the collection. */
  datatype Request =
    | StartRequest(id: string)
    | GuessRequest(id: string, letter: Option<string>)
    | EndRequest(id: string)

  /** The collection after one request, as `GameStore`'s methods change it. */
  function Step(games: map<string, Game>, req: Request): (s: map<string, Game>)
    requires ValidStore(games)
    requires req.StartRequest? ==> req.id !in games
    ensures ValidStore(s)
  {
    match req
    case StartRequest(id) => games[id := NewGame(id, DefaultWord)]
    case GuessRequest(id, letter) => StoreAfterGuess(games, id, Guess(Lookup(games, id), letter))
    case EndRequest(id) => games - {id}
  }

  /** Every start request of `reqs` uses an id that is unused when it runs
      (the source's uuid4 ids). */
  predicate Replayable(games: map<string, Game>, reqs: seq<Request>)
    requires ValidStore(games)
    decreases |reqs|
  {
    reqs == [] ||
    ((reqs[0].StartRequest? ==> reqs[0].id !in games) && Replayable(Step(games, reqs[0]), reqs[1..]))
  }

  /** The collection after `reqs`, one after the other. */
  function Run(games: map<string, Game>, reqs: seq<Request>): (s: map<string, Game>)
    requires ValidStore(games) && Replayable(games, reqs)
    ensures ValidStore(s)
    ensures reqs == [] ==> s == games
    decreases |reqs|
  {
    if reqs == [] then games else Run(Step(games, reqs[0]), reqs[1..])
  }

  /** Every stored record satisfies the game invariants and is not over. */
  ghost predicate LiveStore(games: map<string, Game>) {
    forall id :: id in games ==> Consistent(games[id]) && !games[id].gameOver
  }

  lemma StepKeepsLive(games: map<string, Game>, req: Request)
    requires ValidStore(games) && (req.StartRequest? ==> req.id !in games)
    requires LiveStore(games)
    ensures LiveStore(Step(games, req))
  {
    match req
    case StartRequest(id) =>
      NewGameConsistent(id, DefaultWord);
    case GuessRequest(id, letter) =>
      if id in games {
        GuessPreservesConsistent(games[id], letter);
      }
    case EndRequest(id) =>
  }

  /** No sequence of calls ever stores a finished game: a win or a loss is
      returned but never written back, so the stored record stays at the
      state before the last guess. */
  lemma {:induction false} RunKeepsLive(games: map<string, Game>, reqs: seq<Request>)
    requires ValidStore(games) && Replayable(games, reqs)
    requires LiveStore(games)
    ensures LiveStore(Run(games, reqs))
    decreases |reqs|
  {
    if reqs != [] {
      StepKeepsLive(games, reqs[0]);
      RunKeepsLive(Step(games, reqs[0]), reqs[1..]);
    }
  }

  /** Consequence for a collection the service built from empty: a guess is
      rejected with 404 exactly when no record has the id; the "already
      over" half of that error never applies. */
  lemma NotFoundOnlyWhenAbsent(reqs: seq<Request>, id: string, letter: Option<string>)
    requires Replayable(map[], reqs)
    ensures var s := Run(map[], reqs);
      Guess(Lookup(s, id), letter) == Rejected(NotFoundOrOver) <==> id !in s
  {
    RunKeepsLive(map[], reqs);
  }

  /** A winning or losing guess leaves the collection as it was, so sending
      the same guess again gets the same reply. */
  lemma TerminalReplyRepeats(games: map<string, Game>, id: string, letter: Option<string>)
    requires ValidStore(games)
    ensures var r := Guess(Lookup(games, id), letter);
      var s := Step(games, GuessRequest(id, letter));
      (r.Won? || r.Lost?) ==> s == games && Guess(Lookup(s, id), letter) == r
  {
  }

  /** Deleting a game that existed succeeds once; the next deletion of the
      same id finds nothing, and the game cannot be guessed any more. */
  lemma EndTwice(games: map<string, Game>, id: string, letter: Option<string>)
    requires ValidStore(games) && id in games
    ensures var s := Step(games, EndRequest(id));
      && id !in s
      && Step(s, EndRequest(id)) == s
      && Guess(Lookup(s, id), letter) == Rejected(NotFoundOrOver)
  {
  }
}
