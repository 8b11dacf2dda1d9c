/** Client rounds built on the contracts of `HangmanGame` and the lemmas
    of module `Hangman`; most of them mirror a test of the repository. */
module HangmanScenarios {
  import opened Text
  import opened Hangman

  /** Guessing c, a and t on the dictionary ["cat"] hits three times and
      wins, and the status congratulates and names the word. */
  method GuessingEveryLetterWins() returns (hits: seq<Result<bool>>, won: bool, status: string)
    ensures hits == [Ok(true), Ok(true), Ok(true)]
    ensures won
    ensures "Congratulations!" <= status && Occurs("cat", status)
  {
    var g := new HangmanGame(Basic, ["cat"], 0);
    g.StartTimer(100.0);
    var c := g.MakeGuess("c");
    var a := g.MakeGuess("a");
    assert g.guessedLetters == {'c', 'a'};
    var t := g.MakeGuess("t");
    assert g.guessedLetters == {'c', 'a', 't'};
    WonIffAllLettersGuessed("cat", g.guessedLetters);
    hits, won := [c, a, t], g.won;
    status := g.GetGameStatus(101.0);
    StatusReportsOutcome(g, 101.0);
  }

  /** Six letters that are not in "cat" use up every life: the round is
      over, it is not won, and the status says so. */
  method SixMissesLose() returns (lives: int, over: bool, won: bool, status: string)
    ensures lives == 0 && over && !won
    ensures "Game over!" <= status && Occurs("cat", status)
  {
    var g := new HangmanGame(Basic, ["cat"], 0);
    var wrongLetters := ["x", "y", "z", "w", "v", "u"];
    for k := 0 to 6
      invariant g.Valid() && g.targetWord == "cat" && !g.won && g.startTime == 0.0
      invariant g.currentLives == 6 - k
      invariant forall c :: c in g.guessedLetters <==> exists j :: 0 <= j < k && c == wrongLetters[j][0]
    {
      var r := g.MakeGuess(wrongLetters[k]);
    }
    lives, over, won := g.currentLives, g.IsGameOver(0.0), g.won;
    status := g.GetGameStatus(0.0);
    StatusReportsOutcome(g, 0.0);
  }

  /** Nothing stops a guess after the round is over: a seventh miss takes
      the lives below zero. */
  method MissAfterGameOverStillCosts() returns (lives: int)
    ensures lives == -1
  {
    var g := new HangmanGame(Basic, ["cat"], 0);
    var letters := ["x", "y", "z", "w", "v", "u", "q"];
    for k := 0 to 7
      invariant g.Valid() && g.targetWord == "cat"
      invariant g.currentLives == 6 - k
      invariant forall c :: c in g.guessedLetters <==> exists j :: 0 <= j < k && c == letters[j][0]
    {
      var r := g.MakeGuess(letters[k]);
    }
    lives := g.currentLives;
  }

  /** Whatever the outcome of the first try, trying the same letter again,
      in either case, is rejected as a repeat of its lower-case form. */
  method RepeatedGuessIsRejected(word: string, letter: char, again: char) returns (second: Result<bool>)
    requires IsAlpha(letter) && Lower(again) == Lower(letter)
    ensures second == Err(AlreadyGuessed(Lower(letter)))
  {
    var g := new HangmanGame(Basic, [word], 0);
    var first := g.MakeGuess([letter]);
    second := g.MakeGuess([again]);
  }

  /** Anything but one letter is refused and costs nothing. */
  method InvalidInputIsRefused(input: string) returns (r: Result<bool>, lives: int, shown: string)
    requires |input| != 1 || !IsAlpha(input[0])
    ensures r == Err(NotASingleLetter) && lives == 6
    ensures shown == Interleave(Revealed("apple", {}), " ")
  {
    var g := new HangmanGame(Basic, ["apple"], 0);
    r := g.MakeGuess(input);
    lives := g.currentLives;
    shown := g.GetDisplayString();
  }

  /** The phrase "hello world" starts with ten hidden letters and the space
      between the words shown as it is. */
  method PhraseKeepsItsSpace() returns (shown: string)
    ensures shown == "_ _ _ _ _   _ _ _ _ _"
  {
    var g := new HangmanGame(Intermediate, ["hello world"], 0);
    var d := g.displayWord;
    assert d == "_____ _____";
    shown := g.GetDisplayString();
    forall k | 0 <= k < 21 ensures shown[k] == "_ _ _ _ _   _ _ _ _ _"[k] {
      InterleaveLayout(d, ' ', k / 2);
    }
  }

  /** Sixteen seconds after the timer starts the time is up, the round is
      over and the status gives the answer. */
  method TimeRunsOut() returns (up: bool, over: bool, status: string)
    ensures up && over
    ensures "Time's up!" <= status && Occurs("cat", status)
  {
    var g := new HangmanGame(Basic, ["cat"], 0);
    g.StartTimer(1000.0);
    up, over := g.IsTimeUp(1016.0), g.IsGameOver(1016.0);
    status := g.GetGameStatus(1016.0);
    StatusReportsOutcome(g, 1016.0);
  }

  /** A reset after a miss gives back every life and forgets the guesses. */
  method ResetStartsOver() returns (lives: int, guessed: set<char>, over: bool)
    ensures lives == 6 && guessed == {} && !over
  {
    var g := new HangmanGame(Basic, ["apple", "orange"], 0);
    var r := g.MakeGuess("z");
    g.ResetGame(1);
    lives, guessed, over := g.currentLives, g.guessedLetters, g.IsGameOver(5.0);
  }
}
