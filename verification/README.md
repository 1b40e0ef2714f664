# Workout timers, checklist and division quiz — a Dafny model

This project models the two pieces of logic in the repository's browser
pages. The DOM glue around them is not modelled.

- **The workout page** (treino/treino.js):
  - the `MM:SS` label of a rest timer (`formatTime`);
  - the per-exercise rest timers: the start/pause button (`startRest`), the
    one-second interval callback, and the "reset timers" control;
  - the "done" checkboxes persisted in `localStorage` (`saveCheck`,
    `loadChecks`, "clear all");
  - the description panels (`toggleAccordion`);
  - the element id derived from an exercise name.
- **The division quiz** (division/divisao.js):
  - drawing numbers with a given count of digits (`gerarNumeroComDigitos`);
  - the ten questions with their rejection loop for the divisor
    (`gerarDivisoes`);
  - grading the typed answers (`verificarRespostas` and the check button);
  - the defaulting of the two digit-count inputs (`gerarFluxo`).

JavaScript semantics are stated explicitly:

- A number read with `parseInt` is `Num = Int(v) | NaN`.
- `parseInt(s, 10)` skips ECMAScript white space, reads an optional sign
  and then the longest run of digits.
- `toString` is the shortest decimal form.
- `Math.floor(s / 60)` rounds down, but `s % 60` truncates towards zero.
  So `formatTime(-65)` is `"-2:-5"`, and the model covers every integer.
- `NaN <= 0` is false, and `NaN || 1` is 1.

Modules:

| file | module | models |
|---|---|---|
| wrappers.dfy | `Wrappers` | `Option` |
| numbers.dfy | `Numbers` | `Num`, decimal `toString`, `parseInt` |
| time_format.dfy | `TimeFormat` | `padStart`, `formatTime`, and reading a label back |
| rest_timer.dfy | `RestTimer` | the timer registry, press, tick, reset, and the abstract phase machine |
| checklist.dfy | `Checklist` | the stored record and the rendered checkboxes |
| accordion.dfy | `Accordion` | the panels and their icons |
| exercise_id.dfy | `ExerciseId` | the id sanitiser |
| division_quiz.dfy | `DivisionQuiz` | digit ranges, draws, the rejection loop, the questions and the digit inputs |
| quiz_grader.dfy | `QuizGrader` | row comparison and counting |

How the browser side is modelled:

- **Timers.** `activeTimers` is an immutable map from exercise name to
  `Timer(seconds, running, scheduled)`. The flag `scheduled` stands for a
  live `setInterval` handle. An interval firing is an explicit tick
  event, which only acts on a key whose interval is live.
- **Timer phases.** An abstract machine (`Idle`, `Running`, `Paused`,
  `Spent`) states what the button and the tick mean. The concrete
  registry operations are proved to refine it.
- **Checklist storage.** `localStorage` is an `Option` of the stored
  record.
- **Randomness.** `Math.random()` is a supplied sequence of draws, each a
  real in `[0, 1)`. Generation returns `None` when the draws run out
  before ten questions are made. Every property of a `Some` result holds
  for all draws (partial correctness). Separate lemmas say exactly when
  the rejection loop can stop at all.

A timer's `data-timer` default that does not parse gives `NaN`. Since
`NaN <= 0` is false, the timer never reloads and never completes: each
tick leaves `NaN` and shows `00:00`, and the interval runs until the
timer is paused or reset (`RestTimer.NaNNeverFinishes`).

## Model

| member | source | states |
|---|---|---|
| Numbers.NatToString | treino/treino.js:96-97 | `toString` of a non-negative number is a non-empty run of decimal digits with no leading zero |
| Numbers.NatToStringValue | treino/treino.js:96-97 | the decimal form reads back as the number, and its length is the number of decimal places: `10^(len-1) <= n < 10^len` |
| Numbers.NatToStringLength | division/divisao.js:3-4 | `n` has exactly `k` decimal digits iff it lies in `[10^(k-1), 10^k - 1]`, or in `[0, 9]` when `k = 1` |
| Numbers.ParseIntDefined | division/divisao.js:56-57 | `parseInt` yields a number exactly when, after the leading white space, the text starts with a digit or with a sign followed by a digit; otherwise `NaN` |
| Numbers.ParseIntOfToString | division/divisao.js:56-57 | `parseInt` reads back any integer written by `toString`, negative ones included, whatever non-digit text follows it |
| Numbers.LeadingSpaceIgnored | division/divisao.js:56-57 | leading JavaScript white space never changes what `parseInt` reads |
| TimeFormat.PadStart | treino/treino.js:96-97 | `padStart` puts exactly `width - len` fill characters in front of a shorter string and leaves a long-enough string alone |
| TimeFormat.JsRem | treino/treino.js:97 | JavaScript's `%` is the remainder of division truncated towards zero: `n == d * trunc(n / d) + r`, so it takes the sign of the dividend, in `[0, d)` for a non-negative count and in `(-d, 0]` for a negative one |
| TimeFormat.FormatTime | treino/treino.js:94-98 | every label, `NaN` or not, is at least five characters long |
| TimeFormat.Pad2Value | treino/treino.js:96-97 | a non-negative number padded to two places is all digits, keeps its value, and is exactly two long iff the number is below 100 |
| TimeFormat.FormatTimeRoundTrip | treino/treino.js:94-98 | for every `s >= 0`, reading the label back as `minutes * 60 + seconds`, with a two-digit seconds field below 60, recovers `s` |
| TimeFormat.FormatTimeLength | treino/treino.js:96-98 | the label of `s >= 0` has length 5 iff `s < 6000` |
| TimeFormat.FormatTimeFixedWidth | treino/treino.js:96-98 | below 100 minutes the label is exactly the two minute digits, a colon and the two second digits |
| TimeFormat.SingleDigitSeconds | treino/treino.js:96-98 | counts below ten show as `00:0` followed by the digit |
| TimeFormat.FormatTimeExamples | treino/treino.js:94-98 | `NaN`, 0, 59, 60, 61, 3599, 3600 and -65 show as `00:00`, `00:00`, `00:59`, `01:00`, `01:01`, `59:59`, `60:00` and `-2:-5` |
| RestTimer.PressTimers | treino/treino.js:101-144 | a press moves the key's phase as the abstract machine says: it pauses a running timer and keeps its seconds, starts a new one from the default, reloads the default when nothing is left, and resumes otherwise. Other keys are unchanged, the key is added, and the scheduled-iff-running invariant is kept. The key's interval is cleared when pausing and added otherwise |
| RestTimer.Press | treino/treino.js:101-144 | pausing leaves the display alone; a start shows the default (new or spent timer) or the remaining time (paused timer) |
| RestTimer.TickTimers | treino/treino.js:128-140 | a tick of a running key takes one second off and stops the timer (clearing its interval) once nothing is left. Keys without a live interval are untouched, other keys never change, the invariant is kept, and no interval is ever added |
| RestTimer.Tick | treino/treino.js:128-140 | an interval fires only for a live key. Completion is signalled exactly when a running timer becomes spent, and then the display shows `00:00`; otherwise it shows the remaining time |
| RestTimer.ResetAll | treino/treino.js:186-194 | reset clears exactly the live intervals, leaves no key with an interval, puts every key back to never-started, and shows `formatTime(default)` on every display |
| RestTimer.RunKeepsConsistent | treino/treino.js:101-194 | over any sequence of presses, ticks and resets, a key has a live interval exactly when its timer is running, so no key ever has two intervals |
| RestTimer.CountingDown | treino/treino.js:128-140 | a timer running with `n` seconds is still running with `n - j` left after `j < n` ticks |
| RestTimer.CountdownFinishes | treino/treino.js:128-140 | it completes on exactly the `n`-th tick, ending stopped at 0 with its interval cleared |
| RestTimer.LastTick | treino/treino.js:130-137 | the tick from one second left completes, stops at 0 and clears the interval |
| RestTimer.NaNNeverFinishes | treino/treino.js:116-140 | a timer started with a `NaN` default keeps running through any number of ticks, always shows `00:00` and never signals completion |
| RestTimer.NaNTick | treino/treino.js:128-140 | one tick of a `NaN` timer leaves it running with `NaN`, shows `00:00` and does not complete |
| RestTimer.NothingTicksAfterReset | treino/treino.js:186-194 | after a reset, ticks change nothing and update no display |
| RestTimer.StoppedRestarts | treino/treino.js:119-124 | pressing a timer stopped with its default on it runs it from the default again, whether it was spent or paused |
| RestTimer.PressParity | treino/treino.js:101-144 | starting from a never-started timer, odd numbers of presses leave it running from the default and even ones leave it stopped: the button alternates start and pause |
| RestTimer.ThreeSecondRest | treino/treino.js:101-140 | a 3-second rest shows `00:03`, `00:02`, `00:01`, and completes on the third tick showing `00:00` |
| RestTimer.TickWhileRunning | treino/treino.js:128-140 | a tick from `n >= 2` seconds shows `n - 1` and does not complete |
| RestTimer.SmallLabels | treino/treino.js:94-98 | 3, 2 and 1 seconds show as `00:03`, `00:02`, `00:01` |
| Checklist.Stored | treino/treino.js:231 | an absent record reads as the empty record |
| Checklist.SaveCheck | treino/treino.js:225-234 | saving sets the unit's entry and leaves every other stored entry as it was, with an absent record read as empty. The record is always present afterwards. Only the unit's box and label class change, and they agree |
| Checklist.LoadChecks | treino/treino.js:236-246 | loading checks (box and class) exactly the units stored as done, in addition to those already checked; it never unchecks anything and keeps box and class in agreement |
| Checklist.ClearAll | treino/treino.js:248-254 | the record is removed (it reads as empty) and every box and class is cleared |
| Checklist.SaveThenLoad | treino/treino.js:225-246 | after a save, a later load shows the saved unit done iff it was saved as done or was already checked; every other unit loads as it would have without the save |
| Checklist.ClearThenLoad | treino/treino.js:236-254 | after "clear all", loading changes nothing in any view |
| Checklist.LoadIdempotent | treino/treino.js:236-246 | loading twice equals loading once |
| Checklist.SquatExample | treino/treino.js:225-254 | saving "Squat" on an empty store records exactly that entry; a load shows it; "clear all" empties the record |
| Accordion.Toggle | treino/treino.js:198-217 | closing an open panel removes only it from the open set. Opening a closed one makes it the only open panel. At most one open panel stays so, icons keep pointing up exactly on open panels, and closed panels other than the clicked one are untouched |
| Accordion.ToggleTwice | treino/treino.js:198-217 | from all panels closed, toggling the same panel twice restores every panel |
| Accordion.ClicksKeepOneOpen | treino/treino.js:198-217 | from a page with at most one open panel and matching icons, any sequence of clicks keeps at most one panel open with matching icons |
| ExerciseId.Sanitize | treino/treino.js:59 | the id has the name's length, only ASCII letters, digits and `_`, keeps every ASCII alphanumeric character in place, puts `_` in place of every other character, and changes exactly the characters that are not id characters |
| ExerciseId.SanitizeFixedPoints | treino/treino.js:59 | a name is its own id iff all its characters are id characters |
| ExerciseId.SanitizeIdempotent | treino/treino.js:59 | sanitising an id again changes nothing |
| ExerciseId.SanitizeAppend | treino/treino.js:59 | the replacement works character by character: the id of a concatenation is the concatenation of the ids |
| ExerciseId.SeparatorBecomesUnderscore | treino/treino.js:59 | two alphanumeric words joined by any other character become the words joined by `_` |
| ExerciseId.SanitizeNotInjective | treino/treino.js:59 | the id is not unique per exercise: "Leg Press" and "Leg-Press" both become "Leg_Press" |
| DivisionQuiz.Draw | division/divisao.js:2-6 | every draw lies in `[10^(max(1,d)-1), 10^max(1,d) - 1]` |
| DivisionQuiz.DrawFor | division/divisao.js:2-6 | every number of that range is produced by some `Math.random()` value in `[0, 1)` |
| DivisionQuiz.RangeIsDigitCount | division/divisao.js:1-6 | the range is exactly the positive numbers written with `max(1, d)` digits, none of them a leading zero |
| DivisionQuiz.DrawDivisor | division/divisao.js:14-17 | the kept divisor is the first acceptable draw, and all earlier draws were rejected. It is at least 2 and below the dividend. `None` iff every supplied draw was rejected |
| DivisionQuiz.RejectionCanStop | division/divisao.js:14-17 | when an acceptable divisor of that digit count exists, one draw can end the loop |
| DivisionQuiz.RejectionNeverStops | division/divisao.js:14-17 | when none exists, no sequence of draws ends the loop (the page hangs) |
| DivisionQuiz.EveryDividendAdmits | division/divisao.js:13-17 | the loop can end for every dividend iff the divisor has fewer digits than the dividend |
| DivisionQuiz.MakeQuestion | division/divisao.js:18-20 | `dividend = divisor * quotient + remainder` with `0 <= remainder < divisor` and `quotient >= 1` |
| DivisionQuiz.EuclidUnique | division/divisao.js:18-19 | those are the only quotient and remainder satisfying Euclid's identity |
| DivisionQuiz.GenerateFrom | division/divisao.js:12-21 | questions `i+1..10` come out in order, each with drawn ranges, a kept divisor and Euclid's identity |
| DivisionQuiz.GenerateDivisions | division/divisao.js:10-23 | exactly ten questions with ids 1 to 10 in order, each dividend and divisor in its digit range, divisor at least 2 and below the dividend, Euclid's identity holding |
| DivisionQuiz.StuckDividendStalls | division/divisao.js:12-17 | a first dividend that admits no divisor stalls the whole generation whatever the later draws |
| DivisionQuiz.FinishesFrom | division/divisao.js:12-21 | when the largest dividend admits a divisor, drawing it and the least acceptable divisor in each round makes questions `i + 1` to 10 |
| DivisionQuiz.OneRound | division/divisao.js:13-20 | one round of the largest dividend and the least divisor makes the next question and leaves the remaining draws to the later ones |
| DivisionQuiz.CanFinish | division/divisao.js:10-23 | generation finishes for some draws when the largest dividend admits a divisor; otherwise it finishes for none |
| DivisionQuiz.LargestAdmits | division/divisao.js:2-17 | the largest dividend admits a divisor iff the divisor has no more digits than the dividend |
| DivisionQuiz.GenerationCanFinish | division/divisao.js:10-23 | some draws make all ten questions iff the divisor has no more digits than the dividend; with more divisor digits the page never finishes |
| DivisionQuiz.DigitSetting | division/divisao.js:84-85 | a digit count that parses to a non-zero number is used as is; a blank, unparsable or zero count becomes 1 |
| DivisionQuiz.GenerateFlow | division/divisao.js:83-86 | the generated questions respect the digit counts as read from the inputs |
| DivisionQuiz.FlowDividendDigits | division/divisao.js:84-86 | typing `k >= 1` yields dividends of exactly `k` digits; a blank, unparsable, zero or negative count yields one-digit dividends |
| QuizGrader.Verdicts | division/divisao.js:53-59 | one verdict per row, right iff both parsed fields equal the expected quotient and remainder |
| QuizGrader.Tally | division/divisao.js:53-69 | the counter equals the number of distinct rows marked right and never exceeds the number of rows |
| QuizGrader.CountIsRightRows | division/divisao.js:69 | counting the marks one by one gives the number of distinct right positions |
| QuizGrader.Grade | division/divisao.js:50-72 | `total` is the number of questions. Every row is marked right iff both its parsed fields match. `correct` is the number of right rows, so `correct <= rows <= total` |
| QuizGrader.Check | division/divisao.js:92-96 | no message without questions; otherwise `You got C of T correct.` with `C` the number of right rows and `T` the number of questions |
| QuizGrader.ReadsBack | division/divisao.js:56-57 | a field value holding an integer in decimal reads back as that integer, also after leading white space and before a tail that does not start with a digit |
| QuizGrader.DecimalAnswerCorrect | division/divisao.js:56-59 | field values holding the expected quotient and remainder in decimal are marked right, also with leading white space or a non-digit tail such as the exponent in `7e0` |
| QuizGrader.DecimalRowCorrect | division/divisao.js:56-59 | the plain decimal answers are marked right |
| QuizGrader.UnparsedAnswerWrong | division/divisao.js:56-59 | a blank or non-numeric field makes the row wrong |
| QuizGrader.AllDecimalFullMarks | division/divisao.js:50-72 | answering every question with its decimal quotient and remainder marks every row right |

## Left out

- relogio/relogio.js and script.js are not part of this model. They hold
  the clock page (dates, image fetching, font scaling, fullscreen) and
  animation glue.
- `loadWorkout`, `renderWorkout`, the HTML of `renderExercise`,
  `renderizarQuestoes` and `goBack`: fetching, rendering and navigation.
  `goBack` does not clear `activeTimers`; the registry model simply
  persists across it.
- `flash`, `playTimerSound`, button captions (`Iniciar`/`Pausar`) and
  status-icon classes: visual and audio effects. The completion signal
  is the `finished` flag of `RestTimer.Tick`. The reset control does not
  restore captions; this is not modelled.
- `setInterval` timing: an interval firing is an explicit tick event.
  The one-second cadence, and the overlap of callbacks with other
  events, are not modelled.
- `JSON.parse` of a corrupt `checks` record throws and is not caught.
  The stored record is modelled as a well-formed map from names to
  booleans, so that path is not modelled. Values other than booleans
  are not modelled either.
- Numbers are integers or `NaN`. Fractional values, `Infinity`, and the
  loss of precision beyond 2^53 are not modelled. Digit counts large
  enough for `Math.pow` to lose precision are outside the model.
- Object keys are plain strings. Names such as `__proto__` or
  `constructor`, which collide with `Object.prototype` when used as
  `activeTimers` or `checks` keys, are not modelled.
- Two exercises with the same name share one timer and one check
  entry. Two names with the same sanitised id share one panel, and
  `getElementById` picks the first. The model keys everything by name
  or id and does not model the duplicated DOM.
- A Dafny `char` is a Unicode scalar value, while JavaScript strings are
  UTF-16 code units. Names with characters outside the Basic
  Multilingual Plane are not modelled: in JavaScript each such character
  is two code units and becomes two underscores in the id.
- The answer fields are `<input type="number">` (division/divisao.js:37-38).
  The modelled field text is the value the browser has already sanitised
  for a number input: `""` unless the typed text is a valid
  floating-point number. So `" 7"` or `"7abc"` typed by a user reaches
  `parseInt` as `""` and marks the row wrong, while `"7e0"` reaches it
  as is and reads as 7. The browser's sanitisation is not modelled.
- Accordion.Toggle: requires the panel to exist; for a missing one
  `getElementById` returns `null` and the page throws.
- Checklist.SaveCheck: requires the unit to be on the page; it is only
  ever called from the change event of that unit's own checkbox.
- `Math.random()` is idealised as an exact real in `[0, 1)`. The float
  product and floor are taken exactly.
- DivisionQuiz.GenerateDivisions: states properties of the questions
  whenever the supplied draws suffice (partial correctness). The
  function itself does not promise that it finishes. That is stated
  apart:
  - `GenerationCanFinish` proves some draws finish iff the divisor has
    no more digits than the dividend.
  - `RejectionNeverStops` and `EveryDividendAdmits` characterise when
    the source never terminates.
  - That the idealised random draws finish with probability one is not
    modelled.
- QuizGrader.Grade: requires no more rows than questions. A row past the
  last question makes the source throw.
