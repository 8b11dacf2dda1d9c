# Hangman round, modelled in Dafny

This project models `HangmanGame`, the state machine behind one round of
hangman. A round holds a target word or phrase picked from a dictionary, and a
display that hides each letter behind `_` while spaces and punctuation show as
they are. It also holds the set of letters guessed so far, a lives counter
(6), the `won` and `game_over` flags, and a 15-second round timer.

A guess must be a single letter. It is lower-cased and must not repeat an
earlier guess. A hit reveals that letter at every position where it occurs. A
miss costs one life. The queries report whether the round is won or over, the
spaced-out display, the remaining time, the status line and the ASCII figure
with the list of wrong guesses. A reset starts a new round on the same
dictionary.

The project has three modules, one file each:

- `text.dfy`, module `Text`: the string built-ins the game relies on. These are `isalpha` and `lower` restricted to ASCII, substring search (`Occurs`), `sep.join` over characters (`Interleave`) and `str(int)`.
- `hangman.dfy`, module `Hangman`: the class `HangmanGame` and the rules around it.
  - The fields are those of the Python object.
  - The methods `SelectTarget`, `StartTimer`, `MakeGuess` and `ResetGame` update the fields in place. Their loops mirror the source's loops.
  - The queries are functions that read the object.
  - `Valid()` is the round invariant. It says six things:
    - the target is one of the dictionary's entries;
    - the display equals `Revealed(target, guessed)`: a letter stays hidden until it is guessed, and everything else shows;
    - every guessed letter is lower-case;
    - the lives left are 6 minus the number of wrong letters;
    - `game_over` holds exactly when the round is won or the lives are at or below zero;
    - a won round shows no `_`.
- `scenarios.dfy`, module `HangmanScenarios`: client rounds built on the class contracts and the module's lemmas. Most of them mirror a test of the repository; `MissAfterGameOverStillCosts` shows that lives have no floor.

Two inputs from the outside world become parameters:

- **Random pick.** The source picks the target with `random.choice`. The model takes an index `choice` into the dictionary instead.
- **Clock.** The source reads the clock with `time.time()`. The model takes the reading as a `now: real` parameter. A `startTime` of 0.0 means the timer has not been started, as in the source.

Some behaviour of the code is easy to miss, and the model keeps it:

- **The timer does not block guesses.** `make_guess` never looks at the timer. Checking it is left to the caller.
- **Lives have no floor.** A miss after the round is over still costs a life, so the count can drop below zero. `MissAfterGameOverStillCosts` shows this.
- **`won` is set only by a hit.** A target with no letters shows no `_` from the start, yet `won` stays false.
- **Some targets can never be won.** The display has no `_` exactly when the target itself has no `_` and every letter in it has been guessed (`WonIffAllLettersGuessed`). So a target that contains `_`, or an upper-case letter, can never be won. Guesses are lower-cased; the dictionary reader lower-cases the words, but that reader is not part of this model.

A few more facts about the code that the model keeps as they are:

- The code raises no dedicated error for an empty dictionary. The model requires a valid index into the dictionary instead.
- The code does not keep the lives count at zero or above. The model states `lives > 0` only while the round is not over.
- The code sets `game_over` when the lives fall to zero or below (`<= 0`), not only when they reach exactly zero.

## Model

| member | source | states |
|---|---|---|
| `Hangman.HangmanGame.constructor` | src/hangman.py:13-25 | A new game has the given level and dictionary, the chosen target with every letter masked, 6 lives, no guesses, both flags false and the timer unset, and it satisfies the round invariant |
| `Hangman.HangmanGame.SelectTarget` | src/hangman.py:40-47 | The target is the chosen dictionary entry, and the display has its length. Each position is `_` where the target has a letter and the target's own character elsewhere |
| `Hangman.FreshMaskShape` | src/hangman.py:40-47 | With nothing guessed, the rule display is the mask built by `SelectTarget`, and no letter counts as wrong |
| `Hangman.HangmanGame.StartTimer` | src/hangman.py:49-50 | The timer starts at `now`, the invariant is kept, and right after starting the full 15 seconds remain |
| `Hangman.HangmanGame.GetRemainingTime` | src/hangman.py:52-57 | The remaining time is never negative. It is the full limit while the timer is unset, at most the limit once the clock is past the start, and zero exactly when the limit has elapsed |
| `Hangman.RemainingTimeNeverIncreases` | src/hangman.py:52-57 | A later clock reading never leaves more time than an earlier one |
| `Hangman.RemainingTimeDropsWithClock` | src/hangman.py:52-57 | Once the timer is started and until the limit is reached, the remaining time drops by exactly the time that passes on the clock |
| `Hangman.HangmanGame.IsTimeUp` | src/hangman.py:59-60 | The time is up exactly when the timer was started and at least 15 seconds have passed since then |
| `Hangman.CheckGuess` | src/hangman.py:62-69 | Accepted exactly when the input is one letter whose lower-case form has not been guessed yet; it then yields exactly that lower-case letter. Input that is not one letter is always a `NotASingleLetter` error, and a repeat is an `AlreadyGuessed` error carrying the input's lower-case letter, which is among the guessed ones |
| `Hangman.GuessError.Message` | src/hangman.py:62-69 | The invalid-input text starts "Please enter" and contains "single letter"; the duplicate text starts "Letter '", the rejected letter and a closing quote, and contains "already been guessed" |
| `Hangman.HangmanGame.MakeGuess` | src/hangman.py:62-87 | A rejected input changes nothing. Otherwise exactly the lower-cased letter is added to the guesses, and the result says whether the target contains it. A hit keeps the lives, writes the letter at every position where the target has it and leaves the rest of the display alone; both flags are then set if no `_` is left. A miss keeps the display, takes exactly one life and sets `game_over` once the lives are at or below 0. The invariant is kept, and a guess made while the round is on never takes the lives below 0 |
| `Hangman.RevealLetter` | src/hangman.py:73-76 | Writing the letter at every position where the target has it gives the rule display for the guesses plus that letter |
| `Hangman.WrongLettersGrowOnMiss` | src/hangman.py:71-87 | A new letter that is in the target leaves the set of wrong letters unchanged, and one that is not in the target adds exactly one to it |
| `Hangman.WonIffAllLettersGuessed` | src/hangman.py:89-90 | The display has no `_` exactly when the target has no `_` of its own and every letter in it has been guessed |
| `Hangman.HangmanGame.IsWon` | src/hangman.py:89-90 | In a valid round the game counts as won exactly when the target has no `_` of its own and every letter in it has been guessed |
| `Hangman.HangmanGame.IsGameOver` | src/hangman.py:92-93 | In a valid round the game is over exactly when it is won, out of lives or out of time; while it is not over, between 1 and 6 lives are left and it is not won |
| `Hangman.LivesAndFlags` | src/hangman.py:78-93 | In a valid round the lives never exceed 6, at least one life is left while the round is not over, a win means the round is over and nothing is hidden, and `is_game_over` is the over flag or time up |
| `Hangman.HangmanGame.GetDisplayString` | src/hangman.py:95-96 | The display string has length 2n−1 for n ≥ 1 characters, and it contains no `_` exactly when the round counts as won |
| `Text.Interleave` | src/hangman.py:95-96 | Joining n ≥ 1 characters with a separator gives length n + (n−1)·\|sep\|, and every character that appears is an element or a separator character |
| `Text.InterleaveLayout` | src/hangman.py:95-96 | With a one-character separator, element i sits at position 2i and the separator at position 2i+1 |
| `Hangman.WrongGuesses` | src/hangman.py:111-114 | The listed wrong guesses are in strictly increasing order, and they are exactly the guessed lower-case letters that are not in the target |
| `Hangman.LostLivesAreWrongGuesses` | src/hangman.py:111-114 | In a valid round there are exactly as many listed wrong guesses as lives lost |
| `Hangman.HeadPart` | src/hangman.py:102 | The head is drawn once at least one life is lost |
| `Hangman.BodyPart` | src/hangman.py:118-127 | The torso row draws as many marks as lives lost, capped at 3 (body, one arm, two arms) |
| `Hangman.LegsPart` | src/hangman.py:129-138 | The legs row draws one leg at 4 lives lost and two legs from 5 |
| `Hangman.FigureOnlyGrows` | src/hangman.py:99-138 | Losing more lives never erases or moves a mark of the head, body or legs rows |
| `Hangman.FigureShowsParts` | src/hangman.py:99-108 | The figure contains the head, body and legs rows in that order, one per line |
| `Hangman.DrawingShowsFigure` | src/hangman.py:98-108 | The drawing contains the head, body and legs rows for the lives lost, one per line |
| `Hangman.DrawingShowsLives` | src/hangman.py:109 | The drawing contains "Lives remaining: " followed by the lives left |
| `Hangman.DrawingListsWrongGuesses` | src/hangman.py:111-114 | When some guess was wrong, the drawing contains "Wrong guesses: " followed by the sorted wrong letters joined with ", " |
| `Hangman.FullLivesDrawBareGallows` | src/hangman.py:98-116 | In a valid round with every life left, the drawing is exactly the empty gallows and "Lives remaining: 6", with no wrong-guess line |
| `Hangman.LostLifeListsWrongGuesses` | src/hangman.py:98-116 | In a valid round where a life was lost, the drawing lists the sorted wrong guesses after "Wrong guesses: " |
| `Text.NatToString` | src/hangman.py:149 | A natural number renders as a non-empty string of decimal digits, with a leading `0` only for the number 0 itself |
| `Text.IntToString` | src/hangman.py:109 | An integer renders as a non-empty string that starts with '-' exactly when the integer is negative |
| `Text.DecimalRoundTrip` | src/hangman.py:149 | Reading back the decimal digits of a number gives the number |
| `Hangman.StatusReportsOutcome` | src/hangman.py:140-149 | The status is checked in a fixed order: won ("Congratulations!"), then time up ("Time's up!"), then no lives ("Game over!"), and each of these names the target. Otherwise the status is "Time remaining: N seconds", where N is the truncated remaining time and is at least 0 |
| `Hangman.HangmanGame.ResetGame` | src/hangman.py:151-157 | Full lives, no guesses, both flags cleared, timer unset, the chosen new target with every letter masked, and the round invariant holds |
| `Text.Lower` | src/hangman.py:66 | Lower-casing keeps letters letters and non-letters unchanged; an upper-case letter becomes the lower-case letter at the same place in the alphabet, and a lower-case one stays as it is |
| `HangmanScenarios.GuessingEveryLetterWins` | tests/test_hangman.py:96-106 | On ["cat"], guessing c, a, t gives three hits and wins, and the status congratulates and names "cat" |
| `HangmanScenarios.SixMissesLose` | tests/test_hangman.py:108-119 | On ["cat"], six misses leave 0 lives, the round over and not won, and the status reads "Game over!" with "cat" |
| `HangmanScenarios.MissAfterGameOverStillCosts` | src/hangman.py:84-86 | A seventh miss after the lives run out still takes a life, leaving -1 |
| `HangmanScenarios.RepeatedGuessIsRejected` | tests/test_hangman.py:79-86 | For any word, whether the first try hit or missed, the same letter again, in either case, is an `AlreadyGuessed` error for its lower-case form |
| `HangmanScenarios.InvalidInputIsRefused` | tests/test_hangman.py:88-94 | Any input that is not one letter is refused without costing a life or changing the display |
| `HangmanScenarios.PhraseKeepsItsSpace` | tests/test_hangman.py:151-157 | "hello world" is first shown as `_ _ _ _ _   _ _ _ _ _` |
| `HangmanScenarios.TimeRunsOut` | tests/test_hangman.py:132-139 | Sixteen seconds after the start, the time is up, the round is over and the status reads "Time's up!" with the answer |
| `HangmanScenarios.ResetStartsOver` | tests/test_hangman.py:180-190 | After a miss and a reset, the lives are back to 6, no letters are guessed and the round is not over |

## Left out

- `_load_dictionary` (src/hangman.py:27-38) is not modelled. It reads a word file and falls back to a built-in list. The dictionary is instead a constructor parameter, and a valid index into it is required. The code itself raises no dedicated error for an empty dictionary.
- `random.choice` is not modelled: the caller passes the index of the target.
- `time.time()` is not modelled: the caller passes the clock reading `now`. Times are exact reals, so the model ignores float rounding.
- `main()` (src/hangman.py:160-216) is not modelled. It is the console loop with its prompts, printing and keyboard-interrupt handling.
- Letters are limited to ASCII. Python's Unicode `isalpha` and `lower`, and a `lower` that yields two characters, are not modelled.
- `Hangman.WrongGuesses` walks the alphabet a to z instead of sorting. The result is the same because guessed letters are always lower-case ASCII. The function drops any other character, which a valid round never holds.
- `Hangman.HangmanGame.MakeGuess` writes the display as a field of type `seq<char>` that it reassigns. The source updates a Python list in place. Nothing else holds a reference to that list, so no aliasing is lost.
- `Hangman.StatusReportsOutcome`: for the first three messages it states only the leading words and that the target appears, not the full text. The function `GetGameStatus` gives the full text.
- `Hangman.DrawingShowsFigure`, `Hangman.DrawingShowsLives` and `Hangman.DrawingListsWrongGuesses` state the parts the drawing contains, not its full text. The function `GetHangmanDrawing` gives the full text, and `Hangman.FullLivesDrawBareGallows` states it in full for a round with no life lost.
- The `level` field is kept, but nothing in the core reads it except dictionary loading, which is not part of this model.
