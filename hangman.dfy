/** One round of hangman: the target word, its display mask, the guessed
    letters, the lives counter, the won/over flags and the round timer.
    The random pick of the target is a `choice` index into the dictionary,
    and every clock read is a `now` parameter (seconds, as a real). */
module Hangman {
  import opened Text

  /** The difficulty tier. It only decides which word list the dictionary is
      read from, and that reading is outside this model. */
  datatype GameLevel = Basic | Intermediate

  /** Shown in the display for a letter not yet guessed. */
  const Placeholder: char := '_'

  /** Why `make_guess` rejects an input; the source raises a `ValueError`. */
  datatype GuessError = NotASingleLetter | AlreadyGuessed(letter: char)
  {
    /** The text of the raised error. */
    function Message(): (m: string)
      ensures NotASingleLetter? ==> "Please enter" <= m && Occurs("single letter", m)
      ensures AlreadyGuessed? ==> "Letter '" + [letter] + "'" <= m && Occurs("already been guessed", m)
    {
      match this
      case NotASingleLetter =>
        var tail := "single letter";
        assert OccursAt(tail, tail, 0);
        OccursAfter(tail, "Please enter a ", tail);
        "Please enter a " + tail
      case AlreadyGuessed(c) =>
        var head := "Letter '" + [c] + "'";
        var tail := "already been guessed";
        assert OccursAt(tail, tail, 0);
        OccursAfter(tail, head + " has ", tail);
        head + " has " + tail
    }
  }

  datatype Result<T> = Ok(value: T) | Err(error: GuessError)

  /** The checks `make_guess` makes before it changes anything: the input is
      one letter; lower-cased, it has not been guessed before. */
  function CheckGuess(guessed: set<char>, input: string): (r: Result<char>)
    ensures r.Ok? <==> |input| == 1 && IsAlpha(input[0]) && Lower(input[0]) !in guessed
    ensures r == Err(NotASingleLetter) <==> |input| != 1 || !IsAlpha(input[0])
    ensures r.Ok? ==> IsLower(r.value) && r.value !in guessed
    ensures r.Ok? ==> r.value == Lower(input[0])
    ensures r.Err? && r.error.AlreadyGuessed? ==> r.error.letter == Lower(input[0]) && r.error.letter in guessed
  {
    if |input| != 1 || !IsAlpha(input[0]) then Err(NotASingleLetter)
    else
      var letter := Lower(input[0]);
      if letter in guessed then Err(AlreadyGuessed(letter)) else Ok(letter)
  }

  /** The display the rules call for once `guessed` have been tried: a letter
      of the target stays hidden until it is guessed, anything else shows. */
  ghost function Revealed(target: string, guessed: set<char>): seq<char>
  {
    seq(|target|, i requires 0 <= i < |target| =>
      if IsAlpha(target[i]) && target[i] !in guessed then Placeholder else target[i])
  }

  /** The guessed letters that are not in the target: one life lost each. */
  ghost function WrongLetters(guessed: set<char>, target: string): set<char>
  {
    set c | c in guessed && c !in target
  }

  /** A fresh round shows exactly the non-letters of the target. */
  lemma FreshMaskShape(target: string)
    ensures |Revealed(target, {})| == |target|
    ensures forall i :: 0 <= i < |target| ==>
      (IsAlpha(target[i]) ==> Revealed(target, {})[i] == Placeholder) &&
      (!IsAlpha(target[i]) ==> Revealed(target, {})[i] == target[i])
    ensures WrongLetters({}, target) == {}
  {
  }

  /** Writing a new letter over every position where the target has it gives
      the display the rules call for with that letter added. */
  lemma RevealLetter(target: string, guessed: set<char>, letter: char, before: seq<char>, after: seq<char>)
    requires before == Revealed(target, guessed)
    requires IsAlpha(letter)
    requires |after| == |target|
    requires forall i :: 0 <= i < |target| ==> after[i] == if target[i] == letter then letter else before[i]
    ensures after == Revealed(target, guessed + {letter})
  {
  }

  /** A hit leaves the wrong letters alone; a miss adds the new letter to them. */
  lemma WrongLettersGrowOnMiss(guessed: set<char>, target: string, letter: char)
    requires letter !in guessed
    ensures letter in target ==> WrongLetters(guessed + {letter}, target) == WrongLetters(guessed, target)
    ensures letter !in target ==>
      |WrongLetters(guessed + {letter}, target)| == |WrongLetters(guessed, target)| + 1
  {
    if letter !in target {
      assert WrongLetters(guessed + {letter}, target) == WrongLetters(guessed, target) + {letter};
    }
  }

  /** The display has no placeholder left exactly when every letter of the
      target has been guessed and the target has no `_` of its own (a `_` is
      shown as it is and can never be guessed away). */
  lemma {:induction false} WonIffAllLettersGuessed(target: string, guessed: set<char>)
    ensures Placeholder !in Revealed(target, guessed) <==>
      Placeholder !in target &&
      forall i :: 0 <= i < |target| && IsAlpha(target[i]) ==> target[i] in guessed
  {
    var d := Revealed(target, guessed);
    if Placeholder in target {
      var i :| 0 <= i < |target| && target[i] == Placeholder;
      assert d[i] == Placeholder;
    }
    if i :| 0 <= i < |target| && IsAlpha(target[i]) && target[i] !in guessed {
      assert d[i] == Placeholder;
    }
  }

  // ---------------------------------------------------------------------
  // The list of wrong guesses in the drawing.

  /** The lower-case ASCII letters in alphabetical order. */
  function Alphabet(): (a: seq<char>)
    ensures forall c :: c in a <==> IsLower(c)
    ensures StrictlyIncreasing(a)
  {
    var a := seq(26, i requires 0 <= i < 26 => ('a' as int + i) as char);
    assert forall c | IsLower(c) :: a[c as int - 'a' as int] == c;
    a
  }

  predicate StrictlyIncreasing(s: seq<char>) {
    forall i, j :: 0 <= i < j < |s| ==> s[i] < s[j]
  }

  /** The members of `keep`, in the order they have in `order`. */
  function Select(order: seq<char>, keep: set<char>): (r: seq<char>)
    ensures forall c :: c in r <==> c in order && c in keep
    ensures StrictlyIncreasing(order) ==> StrictlyIncreasing(r)
    decreases |order|
  {
    if order == [] then []
    else
      var rest := Select(order[1..], keep);
      assert StrictlyIncreasing(order) ==> forall c :: c in rest ==> order[0] < c by {
        if StrictlyIncreasing(order) {
          forall c | c in rest ensures order[0] < c {
            var k :| 0 <= k < |order[1..]| && order[1..][k] == c;
            assert order[k + 1] == c;
          }
        }
      }
      if order[0] in keep then
        var r := [order[0]] + rest;
        assert StrictlyIncreasing(order) ==> StrictlyIncreasing(r) by {
          if StrictlyIncreasing(order) {
            assert StrictlyIncreasing(order[1..]);
            forall i, j | 0 <= i < j < |r| ensures r[i] < r[j] {
              assert r[j] == rest[j - 1] && rest[j - 1] in rest;
              if 0 < i {
                assert r[i] == rest[i - 1];
              }
            }
          }
        }
        r
      else
        assert StrictlyIncreasing(order) ==> StrictlyIncreasing(order[1..]);
        rest
  }

  /** `sorted(l for l in guessed if l not in target)`. Guessed letters are
      lower-case ASCII, so walking the alphabet yields them in sorted order. */
  function WrongGuesses(guessed: set<char>, target: string): (r: seq<char>)
    ensures StrictlyIncreasing(r)
    ensures forall c :: c in r <==> c in guessed && c !in target && IsLower(c)
  {
    Select(Alphabet(), set c | c in guessed && c !in target)
  }

  lemma {:induction false} IncreasingHasNoRepeats(s: seq<char>)
    requires StrictlyIncreasing(s)
    ensures |set c | c in s| == |s|
  {
    if s != [] {
      IncreasingHasNoRepeats(s[1..]);
      assert s[0] !in s[1..];
      assert (set c | c in s) == {s[0]} + (set c | c in s[1..]);
    }
  }

  // ---------------------------------------------------------------------
  // The rows of the figure.

  /** How many marks a row of the figure draws right of the post. */
  function Marks(row: string): nat
  {
    if |row| <= 3 then 0 else CountNonSpace(row[3..])
  }

  function CountNonSpace(s: string): nat
  {
    if s == [] then 0 else (if s[0] != ' ' then 1 else 0) + CountNonSpace(s[1..])
  }

  /** Everything drawn in `a` is drawn, at the same place, in `b`. */
  ghost predicate Covers(a: string, b: string)
  {
    forall k :: 0 <= k < |a| && a[k] != ' ' ==> k < |b| && b[k] == a[k]
  }

  /** The head appears after the first life lost. */
  function HeadPart(livesLost: int): (r: string)
    ensures Marks(r) == if livesLost >= 1 then 1 else 0
  {
    if livesLost >= 1 then "  |  O" else "  |   "
  }

  /** The torso, then one arm, then both, at 1, 2 and 3 lives lost. */
  function BodyPart(livesLost: int): (r: string)
    ensures Marks(r) == if livesLost >= 3 then 3 else if livesLost <= 0 then 0 else livesLost
  {
    if livesLost >= 3 then "  | /|\\"
    else if livesLost >= 2 then "  | /|"
    else if livesLost >= 1 then "  |  |"
    else "  |   "
  }

  /** One leg, then both, at 4 and 5 lives lost. */
  function LegsPart(livesLost: int): (r: string)
    ensures Marks(r) == if livesLost >= 5 then 2 else if livesLost >= 4 then 1 else 0
  {
    if livesLost >= 5 then "  | / \\"
    else if livesLost >= 4 then "  | /"
    else if livesLost >= 1 then "  |"
    else "  |   "
  }

  /** The six rows of the gallows and the figure, one per line. */
  function Figure(livesLost: int): string
  {
    "  ____\n  |  |\n" + HeadPart(livesLost) + "\n" + BodyPart(livesLost) + "\n"
      + LegsPart(livesLost) + "\n__|__"
  }

  function LivesLine(lives: int): string
  {
    "Lives remaining: " + IntToString(lives)
  }

  /** The line listing the wrong guesses; absent while there are none. */
  function WrongGuessLine(wrong: seq<char>): string
  {
    if wrong == [] then "" else "\n" + ("Wrong guesses: " + Interleave(wrong, ", "))
  }

  /** Losing more lives never erases a part of the figure. */
  lemma FigureOnlyGrows(fewer: int, more: int)
    requires fewer <= more
    ensures Covers(HeadPart(fewer), HeadPart(more))
    ensures Covers(BodyPart(fewer), BodyPart(more))
    ensures Covers(LegsPart(fewer), LegsPart(more))
  {
  }

  // ---------------------------------------------------------------------
  // The game.

  class HangmanGame {
    const level: GameLevel
    const dictionary: seq<string>
    const maxLives: int := 6
    const timeLimit: real := 15.0
    var currentLives: int
    var guessedLetters: set<char>
    var gameOver: bool
    var won: bool
    var targetWord: string
    var displayWord: seq<char>
    /** 0.0 while the timer has not been started. */
    var startTime: real

    /** The invariant every round keeps between operations. */
    ghost predicate Valid()
      reads this
    {
      && targetWord in dictionary
      && (forall c :: c in guessedLetters ==> IsLower(c))
      && displayWord == Revealed(targetWord, guessedLetters)
      && currentLives == maxLives - |WrongLetters(guessedLetters, targetWord)|
      && (gameOver <==> won || currentLives <= 0)
      && (won ==> Placeholder !in displayWord)
    }

    constructor (level: GameLevel, dictionary: seq<string>, choice: nat)
      requires choice < |dictionary|
      ensures Valid()
      ensures this.level == level && this.dictionary == dictionary
      ensures targetWord == dictionary[choice] && displayWord == Revealed(targetWord, {})
      ensures currentLives == maxLives && guessedLetters == {}
      ensures !gameOver && !won && startTime == 0.0
    {
      this.level := level;
      this.dictionary := dictionary;
      currentLives := 6;
      guessedLetters := {};
      gameOver := false;
      won := false;
      targetWord := "";
      displayWord := [];
      startTime := 0.0;
      new;
      SelectTarget(choice);
      FreshMaskShape(targetWord);
    }

    /** Picks the target and builds its mask, one character at a time. */
    method SelectTarget(choice: nat)
      requires choice < |dictionary|
      modifies this`targetWord, this`displayWord
      ensures targetWord == dictionary[choice]
      ensures |displayWord| == |targetWord|
      ensures forall i :: 0 <= i < |targetWord| ==>
        displayWord[i] == if IsAlpha(targetWord[i]) then Placeholder else targetWord[i]
    {
      var word := dictionary[choice];
      targetWord := word;
      displayWord := [];
      for i := 0 to |word|
        modifies this`displayWord
        invariant targetWord == word
        invariant |displayWord| == i
        invariant forall j :: 0 <= j < i ==>
          displayWord[j] == if IsAlpha(word[j]) then Placeholder else word[j]
      {
        if IsAlpha(word[i]) {
          displayWord := displayWord + [Placeholder];
        } else {
          displayWord := displayWord + [word[i]];
        }
      }
    }

    method StartTimer(now: real)
      requires Valid()
      modifies this`startTime
      ensures Valid() && startTime == now
      ensures now != 0.0 ==> GetRemainingTime(now) == timeLimit
    {
      startTime := now;
    }

    function GetRemainingTime(now: real): (r: real)
      reads this
      ensures r >= 0.0
      ensures startTime == 0.0 ==> r == timeLimit
      ensures startTime != 0.0 && now >= startTime ==> r <= timeLimit
      ensures startTime != 0.0 ==> (r == 0.0 <==> now - startTime >= timeLimit)
    {
      if startTime == 0.0 then timeLimit
      else
        var remaining := timeLimit - (now - startTime);
        if remaining > 0.0 then remaining else 0.0
    }

    predicate IsTimeUp(now: real)
      reads this
      ensures IsTimeUp(now) <==> startTime != 0.0 && now - startTime >= timeLimit
    {
      GetRemainingTime(now) <= 0.0
    }

    /** Tries one letter. A rejected input changes nothing; otherwise the
        letter is recorded and either revealed everywhere (a hit) or paid
        for with a life (a miss). The timer is not consulted. */
    method MakeGuess(input: string) returns (r: Result<bool>)
      requires Valid()
      modifies this`guessedLetters, this`displayWord, this`currentLives, this`won, this`gameOver
      ensures Valid()
      ensures r.Err? <==> CheckGuess(old(guessedLetters), input).Err?
      ensures r.Err? ==> r.error == CheckGuess(old(guessedLetters), input).error && unchanged(this)
      ensures r.Ok? ==> |input| == 1
      ensures r.Ok? ==>
        var letter := Lower(input[0]);
        && letter !in old(guessedLetters)
        && guessedLetters == old(guessedLetters) + {letter}
        && (r.value <==> letter in targetWord)
      ensures r == Ok(true) ==>
        var letter := Lower(input[0]);
        && currentLives == old(currentLives)
        && |displayWord| == |old(displayWord)|
        && (forall i :: 0 <= i < |displayWord| ==>
              displayWord[i] == if targetWord[i] == letter then letter else old(displayWord)[i])
        && won == (old(won) || Placeholder !in displayWord)
        && gameOver == (old(gameOver) || Placeholder !in displayWord)
      ensures r == Ok(false) ==>
        && displayWord == old(displayWord)
        && currentLives == old(currentLives) - 1
        && won == old(won)
        && gameOver == (old(gameOver) || currentLives <= 0)
      ensures !old(gameOver) ==> currentLives >= 0
    {
      var checked := CheckGuess(guessedLetters, input);
      if checked.Err? {
        return Err(checked.error);
      }
      var letter := checked.value;
      WrongLettersGrowOnMiss(guessedLetters, targetWord, letter);
      ghost var before := displayWord;
      guessedLetters := guessedLetters + {letter};
      if letter in targetWord {
        for i := 0 to |targetWord|
          modifies this`displayWord
          invariant |displayWord| == |targetWord|
          invariant forall j :: 0 <= j < i ==>
            displayWord[j] == if targetWord[j] == letter then letter else before[j]
          invariant forall j :: i <= j < |targetWord| ==> displayWord[j] == before[j]
        {
          if targetWord[i] == letter {
            displayWord := displayWord[i := letter];
          }
        }
        RevealLetter(targetWord, old(guessedLetters), letter, before, displayWord);
        if IsWon() {
          won := true;
          gameOver := true;
        }
        return Ok(true);
      } else {
        currentLives := currentLives - 1;
        if currentLives <= 0 {
          gameOver := true;
        }
        return Ok(false);
      }
    }

    /** In a valid round, won exactly when the target has no `_` of its own
        and each of its letters has been guessed. */
    predicate IsWon()
      reads this
      ensures Valid() ==> (IsWon() <==>
        Placeholder !in targetWord &&
        forall i :: 0 <= i < |targetWord| && IsAlpha(targetWord[i]) ==> targetWord[i] in guessedLetters)
    {
      WonIffAllLettersGuessed(targetWord, guessedLetters);
      Placeholder !in displayWord
    }

    /** In a valid round the `game_over` flag adds nothing: the round is over
        exactly when it is won, out of lives or out of time. */
    predicate IsGameOver(now: real)
      reads this
      ensures Valid() ==> (IsGameOver(now) <==> won || currentLives <= 0 || IsTimeUp(now))
      ensures Valid() && !IsGameOver(now) ==> 0 < currentLives <= maxLives && !won
    {
      gameOver || IsTimeUp(now) || currentLives <= 0
    }

    /** The display characters separated by single spaces. */
    function GetDisplayString(): (s: string)
      reads this
      ensures |displayWord| > 0 ==> |s| == 2 * |displayWord| - 1
      ensures IsWon() <==> Placeholder !in s
    {
      Interleave(displayWord, " ")
    }

    function GetHangmanDrawing(): string
      reads this
    {
      Figure(maxLives - currentLives) + "\n\n" + LivesLine(currentLives)
        + WrongGuessLine(WrongGuesses(guessedLetters, targetWord))
    }

    function GetGameStatus(now: real): string
      reads this
    {
      if won then "Congratulations! You guessed the word: '" + targetWord + "'"
      else if IsTimeUp(now) then "Time's up! The answer was: '" + targetWord + "'"
      else if currentLives <= 0 then "Game over! The answer was: '" + targetWord + "'"
      else "Time remaining: " + IntToString(GetRemainingTime(now).Floor) + " seconds"
    }

    /** Starts a new round on the same dictionary. */
    method ResetGame(choice: nat)
      requires choice < |dictionary|
      modifies this`currentLives, this`guessedLetters, this`gameOver, this`won, this`startTime,
               this`targetWord, this`displayWord
      ensures Valid()
      ensures targetWord == dictionary[choice] && displayWord == Revealed(targetWord, {})
      ensures currentLives == maxLives && guessedLetters == {}
      ensures !gameOver && !won && startTime == 0.0
    {
      currentLives := maxLives;
      guessedLetters := {};
      gameOver := false;
      won := false;
      startTime := 0.0;
      SelectTarget(choice);
      FreshMaskShape(targetWord);
    }
  }

  // ---------------------------------------------------------------------
  // Properties of a game across its queries.

  /** Lives are only lost to wrong letters, so while the round is on there is
      at least one left, and a win always ends the round. */
  lemma LivesAndFlags(g: HangmanGame, now: real)
    requires g.Valid()
    ensures g.currentLives <= g.maxLives
    ensures !g.gameOver ==> 0 < g.currentLives
    ensures g.won ==> g.gameOver && g.IsWon()
    ensures g.IsGameOver(now) <==> g.gameOver || g.IsTimeUp(now)
  {
  }

  /** The wrong guesses listed under the figure are the guessed letters not
      in the target, so there is one of them per life lost. */
  lemma LostLivesAreWrongGuesses(g: HangmanGame)
    requires g.Valid()
    ensures |WrongGuesses(g.guessedLetters, g.targetWord)| == g.maxLives - g.currentLives
  {
    var list := WrongGuesses(g.guessedLetters, g.targetWord);
    IncreasingHasNoRepeats(list);
    assert (set c | c in list) == WrongLetters(g.guessedLetters, g.targetWord);
  }

  /** The remaining time never goes up as the clock advances. */
  lemma RemainingTimeNeverIncreases(g: HangmanGame, earlier: real, later: real)
    requires earlier <= later
    ensures g.GetRemainingTime(later) <= g.GetRemainingTime(earlier)
  {
  }

  /** Until the limit is reached, the remaining time runs down exactly as
      fast as the clock advances. */
  lemma RemainingTimeDropsWithClock(g: HangmanGame, earlier: real, later: real)
    requires g.startTime != 0.0 && g.startTime <= earlier <= later
    requires later - g.startTime < g.timeLimit
    ensures g.GetRemainingTime(earlier) - g.GetRemainingTime(later) == later - earlier
  {
  }

  /** The gallows rows enclose the head, body and legs rows, in that order. */
  lemma FigureShowsParts(lost: int)
    ensures Occurs(HeadPart(lost) + "\n" + BodyPart(lost) + "\n" + LegsPart(lost), Figure(lost))
  {
    var parts := HeadPart(lost) + "\n" + BodyPart(lost) + "\n" + LegsPart(lost);
    assert Figure(lost) == "  ____\n  |  |\n" + parts + "\n__|__";
    OccursInMiddle("  ____\n  |  |\n", parts, "\n__|__");
  }

  /** The drawing shows the head, body and legs rows for the lives lost. */
  lemma DrawingShowsFigure(g: HangmanGame)
    ensures var lost := g.maxLives - g.currentLives;
      Occurs(HeadPart(lost) + "\n" + BodyPart(lost) + "\n" + LegsPart(lost), g.GetHangmanDrawing())
  {
    var lost := g.maxLives - g.currentLives;
    var parts := HeadPart(lost) + "\n" + BodyPart(lost) + "\n" + LegsPart(lost);
    var figure := Figure(lost);
    var lives := LivesLine(g.currentLives);
    var line := WrongGuessLine(WrongGuesses(g.guessedLetters, g.targetWord));
    FigureShowsParts(lost);
    OccursBefore(parts, figure, "\n\n");
    OccursBefore(parts, figure + "\n\n", lives);
    OccursBefore(parts, figure + "\n\n" + lives, line);
  }

  /** The drawing shows how many lives are left. */
  lemma DrawingShowsLives(g: HangmanGame)
    ensures Occurs(LivesLine(g.currentLives), g.GetHangmanDrawing())
  {
    var figure := Figure(g.maxLives - g.currentLives);
    var line := WrongGuessLine(WrongGuesses(g.guessedLetters, g.targetWord));
    OccursInMiddle(figure + "\n\n", LivesLine(g.currentLives), line);
  }

  /** When some guess was wrong, the drawing lists the wrong guesses in
      alphabetical order. */
  lemma DrawingListsWrongGuesses(g: HangmanGame)
    ensures var wrong := WrongGuesses(g.guessedLetters, g.targetWord);
      wrong != [] ==> Occurs("Wrong guesses: " + Interleave(wrong, ", "), g.GetHangmanDrawing())
  {
    var wrong := WrongGuesses(g.guessedLetters, g.targetWord);
    if wrong != [] {
      var figure := Figure(g.maxLives - g.currentLives);
      var lives := LivesLine(g.currentLives);
      var line := WrongGuessLine(wrong);
      var listed := "Wrong guesses: " + Interleave(wrong, ", ");
      OccursInMiddle("\n", listed, "");
      assert "\n" + listed + "" == line;
      OccursAfter(listed, figure + "\n\n" + lives, line);
    }
  }

  /** With every life left nothing is listed under the figure: the drawing
      is the bare gallows and the lives line. */
  lemma FullLivesDrawBareGallows(g: HangmanGame)
    requires g.Valid() && g.currentLives == g.maxLives
    ensures g.GetHangmanDrawing() == Figure(0) + "\n\nLives remaining: 6"
  {
    LostLivesAreWrongGuesses(g);
    var wrong := WrongGuesses(g.guessedLetters, g.targetWord);
    assert wrong == [];
    assert WrongGuessLine(wrong) == "";
    assert IntToString(6) == "6";
    assert LivesLine(g.currentLives) == "Lives remaining: 6";
    assert g.GetHangmanDrawing() == Figure(0) + "\n\n" + LivesLine(g.currentLives) + "";
  }

  /** Once a life is lost the drawing lists the wrong guesses. */
  lemma LostLifeListsWrongGuesses(g: HangmanGame)
    requires g.Valid() && g.currentLives < g.maxLives
    ensures Occurs("Wrong guesses: " + Interleave(WrongGuesses(g.guessedLetters, g.targetWord), ", "),
                   g.GetHangmanDrawing())
  {
    LostLivesAreWrongGuesses(g);
    DrawingListsWrongGuesses(g);
  }

  /** The status reports a win first, then a timeout, then a loss, each with
      the answer; only while none of these holds does it give the time left. */
  lemma StatusReportsOutcome(g: HangmanGame, now: real)
    ensures g.won ==>
      "Congratulations!" <= g.GetGameStatus(now) && Occurs(g.targetWord, g.GetGameStatus(now))
    ensures !g.won && g.IsTimeUp(now) ==>
      "Time's up!" <= g.GetGameStatus(now) && Occurs(g.targetWord, g.GetGameStatus(now))
    ensures !g.won && !g.IsTimeUp(now) && g.currentLives <= 0 ==>
      "Game over!" <= g.GetGameStatus(now) && Occurs(g.targetWord, g.GetGameStatus(now))
    ensures !g.won && !g.IsTimeUp(now) && g.currentLives > 0 ==>
      var seconds := g.GetRemainingTime(now).Floor;
      0 <= seconds && g.GetGameStatus(now) == "Time remaining: " + NatToString(seconds) + " seconds"
  {
    if g.won {
      OccursInMiddle("Congratulations! You guessed the word: '", g.targetWord, "'");
    } else if g.IsTimeUp(now) {
      OccursInMiddle("Time's up! The answer was: '", g.targetWord, "'");
    } else if g.currentLives <= 0 {
      OccursInMiddle("Game over! The answer was: '", g.targetWord, "'");
    }
  }
}
