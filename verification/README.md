# guess-number in Dafny

A model of the command-line number guessing game `guess-number.js`. The
model covers four parts:

- **Scoring** (`scoring.dfy`): the points a win is worth, `max(100 - 5 * attempts, 10)`.
- **HighScores** (`high_scores.dfy`): the leaderboard. `saveHighScore` appends
  the new entry to the loaded list, sorts by descending score with the
  comparator `b.score - a.score`, and keeps the first five (`splice(5)`).
  `resetHighScores` stores the empty list.
- **JsParseInt** (`parse_int.dfy`): JavaScript's `parseInt(string)` with no
  radix, as section 19.2.5 of ECMA-262 defines it. It skips leading white
  space, takes one optional sign, switches to base 16 after `0x`/`0X`, reads
  the longest digit run and ignores the rest. An empty run is NaN, shown as `None`.
- **GuessGame** (`game.dfy`): the guess prompt's `validate` callback, the
  re-parse of the accepted answer, one pass of the guess loop as a state
  transition (`Step`), the loop over a list of answers (`Run`), the name
  prompt's default, and a whole round that ends in a save (`Play`).

`wrappers.dfy` holds the `Option` type.

The secret number is a parameter of `GuessGame.Start`, and the time stamp
is a string parameter of `GuessGame.Play`. The loaded leaderboard is a
parameter of `HighScores.Save`, and the stored one is its result.

Tie order on the leaderboard is modelled exactly. `Array.prototype.sort`
has had to be stable since ECMAScript 2019. A stable sort under a total
preorder has only one possible output, and `HighScores.StableSortIsSortDesc`
proves this. So the model's insertion sort (`HighScores.SortDesc`) orders
tied entries as the runtime does: older entries before the new one. The
code, read against the language standard, guarantees this order, and the
model follows the code.

## Model

| member | source | states |
|---|---|---|
| `Scoring.Score` | guess-number.js:79 | Never below 10. At most 95 once an attempt has been made. Exactly `100 - 5 * attempts` up to 18 attempts. Exactly 10 from 18 attempts on. Always a multiple of 5. |
| `Scoring.ScoreStep` | guess-number.js:79 | One more attempt never raises the score. Above the floor it costs exactly 5 points. |
| `Scoring.ScoreMonotone` | guess-number.js:79 | The score is non-increasing in the number of attempts. |
| `Scoring.ScoreDeterminesAttempts` | guess-number.js:79 | Two attempt counts with the same score above 10 are equal. |
| `Scoring.ScoreExamples` | guess-number.js:79 | 1 attempt scores 95, 17 score 15, 18 score 10 and 50 score 10. |
| `HighScores.SortDesc` | guess-number.js:25 | The sort's output is in descending score order and is a permutation of its input. |
| `HighScores.SortDescStable` | guess-number.js:25 | Sorting keeps the relative order of entries with equal scores. |
| `HighScores.StableSortIsSortDesc` | guess-number.js:25 | Any sorted list that keeps each score's entries in input order equals `SortDesc`'s output. So the order of ties is determined. |
| `HighScores.SortDescSorted` | guess-number.js:25 | Sorting an already sorted list leaves it unchanged. |
| `HighScores.Truncate` | guess-number.js:26 | `splice(5)` keeps a prefix of the list: all of it when it has fewer than five entries, otherwise exactly the first five. |
| `HighScores.TruncateKeepsBest` | guess-number.js:26 | Keeping the first five of a sorted list drops nothing that outscores a kept entry. |
| `HighScores.Save` | guess-number.js:22-28 | For any loaded list, in any order and of any length, the stored board is sorted. It has `min(5, loaded + 1)` entries and is a sub-multiset of the loaded entries plus the new one. If fewer than five entries were loaded, the new entry is kept. |
| `HighScores.SaveDropsLowest` | guess-number.js:24-26 | No entry a save drops outscores an entry it keeps. |
| `HighScores.SaveInventsNothing` | guess-number.js:24-26 | Every stored entry is a loaded entry or the new one. |
| `HighScores.SaveHighScore` | guess-number.js:24-26 | The new entry is stored if fewer than five entries were loaded, or if it beats the fifth-best loaded score. |
| `HighScores.SaveLowScore` | guess-number.js:24-26 | If the new entry does not beat the fifth-best loaded score, the stored board is exactly the best five loaded entries, ties broken in favour of the older ones. |
| `HighScores.SaveAt` | guess-number.js:24-26 | On a stored board, the new entry goes right after every entry that scores at least as much, and then the list is cut to five. |
| `HighScores.TopOfValidBoard` | guess-number.js:25-26 | Sorting and truncating a board that is already sorted and has at most five entries leaves it unchanged. |
| `HighScores.SaveExample` | guess-number.js:22-28 | A board scoring 90, 70, 50, 30, 10 that receives a 60 becomes 90, 70, 60, 50, 30. |
| `HighScores.Reset` | guess-number.js:44-45 | A reset stores the empty board, which is a valid board. |
| `HighScores.SaveAfterReset` | guess-number.js:44-45 | The first save after a reset stores exactly the new entry. |
| `JsParseInt.ParseInt` | guess-number.js:69 | NaN exactly when the scanned digit run is empty. A `-` sign gives a value of at most 0, and no sign or `+` gives a value of at least 0. |
| `JsParseInt.ScanWellFormed` | guess-number.js:69 | The scanner's parts concatenate back to the input. Each part is as long as the grammar allows: all white space first, then at most one sign, a `0x`/`0X` prefix only when one is present, a maximal digit run, and a remainder that does not start with a digit. |
| `JsParseInt.ScanUnique` | guess-number.js:69 | The converse: every well-formed split of a string is the one the scanner makes. |
| `JsParseInt.ParseIntShowInt` | guess-number.js:69 | `parseInt` reads back the decimal rendering of every integer. This holds with any white space before it and any non-digit text after it, except that `0` followed by `x` or `X` starts a hexadecimal literal. |
| `JsParseInt.ParseIntNoDigits` | guess-number.js:69 | Text with no decimal digit after the white space and the optional sign is NaN. |
| `JsParseInt.ParseIntDigits` | guess-number.js:69 | White space, a sign, an optional `0x`/`0X` prefix and a digit run that the next character does not continue parse as the signed value of the run, in base 16 after a prefix and base 10 otherwise. |
| `JsParseInt.ParseIntHex` | guess-number.js:69 | After `0x` or `0X`, the base-16 rendering of any natural number reads back as that number, with or without a minus sign. |
| `GuessGame.Validate` | guess-number.js:68-71 | An answer is accepted exactly when `parseInt` gives a number from 1 to 100. Any refusal carries the message `Please enter a number between 1 and 100.` |
| `GuessGame.GuessOf` | guess-number.js:68-76 | An answer stands for a number exactly when the prompt accepts it. That number lies in 1..100 and is the value of the second `parseInt`. |
| `GuessGame.AcceptsEveryGuess` | guess-number.js:68-71 | Every number from 1 to 100 typed in decimal is accepted as itself, with any leading white space and any trailing non-digit text. |
| `GuessGame.RefusesOutOfRange` | guess-number.js:68-71 | Every integer outside 1..100, typed in decimal, is refused with the message. |
| `GuessGame.RefusesNaN` | guess-number.js:68-71 | Text that `parseInt` reads as NaN is refused with the message. |
| `GuessGame.RefusedExamples` | guess-number.js:68-71 | `abc`, the empty answer, `0`, `101` and `-5` are refused with the message. |
| `GuessGame.AcceptedExamples` | guess-number.js:68-76 | `1` is accepted as 1 and `100` as 100. `42abc` is accepted as 42, and ` 7` as 7. |
| `GuessGame.HexExample` | guess-number.js:68-76 | `0x64` is accepted as 100. |
| `GuessGame.Start` | guess-number.js:56-57 | A fresh round has a secret in 1..100, no attempts counted, and is not over. |
| `GuessGame.Run` | guess-number.js:62-97 | The loop keeps the secret. It counts at most one attempt per answer read, and does nothing once the round is won. `RunCounts` states exactly what it counts and when it stops. |
| `GuessGame.Step` | guess-number.js:62-97 | A refused answer leaves the game unchanged and shows the message. An accepted answer keeps the secret and counts one attempt. It gives exactly one of a win, too low or too high, decided by comparing the re-parsed number with the secret. Only a win ends the round, and it scores the attempt count. |
| `GuessGame.RunCounts` | guess-number.js:62-97 | Over a list of answers, the loop keeps the secret and ends exactly when some answer names the secret. The attempts it counts are the accepted answers among those it read, up to and including the first that names the secret. |
| `GuessGame.WonRoundScore` | guess-number.js:75-79 | A won round took at least one attempt, so its score lies in 10..95. |
| `GuessGame.NameOf` | guess-number.js:82-89 | The saved name is never empty. It is the player's answer when the answer is non-empty and `Player` otherwise. |
| `GuessGame.Play` | guess-number.js:55-98 | A round in which no answer names the secret leaves the board as it was. A won round leaves a valid board. That board is exactly the save of an entry with the player's name, the score of the attempts the round counted (the accepted answers up to and including the first that names the secret) and the round's time stamp. |
| `GuessGame.RoundOutcome` | guess-number.js:62-97 | A fresh round ends exactly when some answer names the secret. It counts exactly the accepted answers up to and including the first such answer. |
| `GuessGame.PlayStoresWin` | guess-number.js:78-91 | A won round stores the entry with the player's name, the round's time stamp and the score of its attempts. This holds when the board has room or the score beats the fifth-best stored score. That score lies in 10..95. |

## Left out

- File I/O and JSON (lines 12-19, 27 and 45): the loaded board is a parameter and the stored board is a result. A failed read, which `loadHighScores` turns into `[]`, is the empty parameter.
- Scores in the file that are not integers (non-numbers make the comparator inconsistent): `Entry.score` is an `int`.
- `getRandomNumber` / `Math.random` (lines 50-52): the secret is a parameter of `GuessGame.Start`, required to lie in 1..100 as the generator guarantees.
- `new Date().toISOString()` (line 24): the time stamp is an opaque string parameter.
- `showHighScores` and all console, `chalk` and `commander` output (lines 31-41, 59-60, 80-81, 93-95, 100-120): these are presentation only.
- `async`/`await`: the model is sequential, which is how the program runs.
- JavaScript Numbers: `parseInt` results are unbounded integers. `-0` is identified with `0`, and both are refused. Precision lost above 2^53 is not modelled; such values are refused anyway.
- The infinite prompt loop: `GuessGame.Run` consumes a finite list of answers and stops when they run out. A round that is never won is a list in which no answer names the secret.
- Inquirer's re-prompt after a refused answer is not modelled as a separate loop. It appears as a `Refused` outcome that changes nothing.
- `parseInt` with an explicit radix is not modelled, because the program never passes one.
