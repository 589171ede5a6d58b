# Wordle: scoring and game session, modelled in Dafny

This project models the core of a browser Wordle clone (`Wordle/wordlejavascript.js`).
The player has six attempts to guess a hidden five-letter word from a built-in bank of
nine words. After each guess, every letter gets a colour: green for the right letter in
the right place, yellow for a letter that occurs elsewhere in the answer, and grey for
an absent letter.

The model has three modules:

- `Scoring` (`scoring.dfy`) models `calculateColorSequence`.
  - `CalculateColorSequence` is an imperative method with the source's three counted
    loops. The first builds a letter table from the answer. The second is the
    exact-match pass, which marks greens and consumes counts. The third is the presence
    pass, which marks yellows only while the letter's count is positive.
  - The method is proved equal to `Score`, a reference definition stated with letter
    counts rather than a mutable table.
  - The properties of the verdict are proved as lemmas about `Score`: length, green
    exactly on a match, letter conservation, and yellow only for letters of the answer.
  - The source's `"g"`/`"y"`/`"b"` string becomes a sequence of the `Color` enumeration.
- `WordBank` (`word_bank.dfy`) models the nine-word bank, `isValidWord` and
  `generateRandomAnswer`.
  - `isValidWord` is a case-insensitive membership test.
  - The random index becomes a parameter `choice`.
- `Game` (`session.dfy`) models the game session. The class `Session` has the
  source's globals `answer`, `wordSequence`, `colorSequence`, `currentGuessTime` and
  `state` as fields.
  - The handlers `HandleKeyClick`, `DeleteCharacter`, `SubmitGuess` and `HandleAnswer`
    update those fields in place. Each returns an `Outcome` value in place of the
    `alert` or `console.error` call.
  - `Valid()` (the predicate `Consistent` on the field values) is the session
    invariant. The colours are always the verdicts of the submitted rows, five per row.
    The state is always `StatusAfter` of the submitted rows, which is the state their
    submissions led to.
  - `StatusAfter` is a fold over the submitted rows. `StatusClosedForm` proves a closed
    form for it.

The session is modelled as the code behaves, not as a stricter game would behave:

- No handler looks at `state`, so neither `SOLVED` nor `FAILED` is final.
  - After solving, the player may keep typing and submitting.
  - A later wrong guess that brings the counter to six or more sets `FAILED`
    (`SolvedGameCanStillFail`).
- The failure test is `currentGuessTime >= 6`, not `== 6`.
- After the sixth attempt, typing writes to row 6. A script array grows when an element
  past its end is assigned, and `Store` models that growth. `DeleteCharacter` reports
  `InvalidIndex` when the counter is past the last row.

A stricter game would make both end states final and fail only at exactly six attempts;
the code does neither.

## Model

| member | source | states |
|---|---|---|
| `Scoring.CalculateColorSequence` | Wordle/wordlejavascript.js:176-207 | The three-loop scorer (letter table, exact-match pass, presence pass over a letter table) returns exactly the reference verdict `Score(guess, answer)`. Its invariants keep every letter count equal to the copies not yet claimed, and never negative. |
| `Scoring.HistogramStep` | Wordle/wordlejavascript.js:181-188 | One step of the table-building loop keeps the table equal to the letter histogram of the answer read so far. A letter seen for the first time gets count 1, and a known letter gets its count plus one. |
| `Scoring.ExactMatchStep` | Wordle/wordlejavascript.js:191-196 | One step of the exact-match pass. A match consumes one count of its letter. Every count equals the letter's occurrences in the answer minus the exact matches so far, and stays non-negative. |
| `Scoring.PresenceStep` | Wordle/wordlejavascript.js:199-204 | One step of the presence pass. A position turns yellow exactly when it is not an exact match and its letter's count is positive. That yellow consumes one count, and the counts stay non-negative. |
| `Scoring.ScoreAt` | Wordle/wordlejavascript.js:191-204 | The mark at each position: green on a match; otherwise yellow when copies of the letter remain after the exact matches and the earlier yellows; otherwise grey. |
| `Scoring.GreenExactlyOnMatch` | Wordle/wordlejavascript.js:191-196 | The verdict has one mark per position. A position is green if and only if the guess and the answer agree there, so the presence pass never overwrites a green. |
| `Scoring.SelfScoreAllGreen` | Wordle/wordlejavascript.js:191-196 | Scoring a word against itself gives all greens. |
| `Scoring.ExactMatchesWithinAnswer` | Wordle/wordlejavascript.js:180-196 | The exact matches on a letter never exceed its occurrences in the answer, so the exact-match pass never drives a count below zero. |
| `Scoring.GreensAgree` | Wordle/wordlejavascript.js:191-204 | The greens of the final verdict are exactly the greens of the exact-match pass. |
| `Scoring.YellowsOnLetter` | Wordle/wordlejavascript.js:199-204 | Within the first n positions, the yellows on a letter equal the smaller of two numbers: its non-matching occurrences in the guess there, and the copies left in the answer after all exact matches. |
| `Scoring.MarkedLetters` | Wordle/wordlejavascript.js:180-204 | Letter conservation. For every letter, the green and yellow marks on the guess positions that hold it number exactly min(occurrences in the guess, occurrences in the answer), so never more than the answer holds. |
| `Scoring.CounterNonNegative` | Wordle/wordlejavascript.js:194-202 | The per-letter counter is never negative at any point of the presence pass. |
| `Scoring.YellowOnlyIfPresent` | Wordle/wordlejavascript.js:200 | A yellow is only given to a position that is not an exact match and whose letter occurs in the answer. |
| `WordBank.BankWordsWellFormed` | Wordle/wordlejavascript.js:128 | Every bank word has length 5 and no upper-case letter. |
| `WordBank.IsValidWord` | Wordle/wordlejavascript.js:139-142 | An accepted word has length 5 and its lower-case form is a bank word. Every bank word is accepted. |
| `WordBank.IsValidWordIgnoresCase` | Wordle/wordlejavascript.js:141 | Under the ASCII case mapping, the bank check gives the same answer for a word, its upper-case form and its lower-case form. |
| `WordBank.TypedBankWordAccepted` | Wordle/wordlejavascript.js:221-232 | A bank word typed in upper case, as rows are stored, lower-cases back to the same word and is accepted. |
| `WordBank.GenerateRandomAnswer` | Wordle/wordlejavascript.js:126-132 | For any index in range, the pick is a bank word of length 5 with no upper-case letter, and it passes the bank check. |
| `Game.Store` | Wordle/wordlejavascript.js:155 | Assigning row k of the row array sets row k and leaves every other row as it was. Past the end of the array, the assignment grows it by one. |
| `Game.StatusClosedForm` | Wordle/wordlejavascript.js:158-165 | The state after a run of submissions, in closed form. With fewer than six submissions: solved if and only if the answer was guessed at some point, unfinished otherwise. From the sixth submission on, only the latest guess decides: solved on the answer, failed otherwise. |
| `Game.SolvedGameCanStillFail` | Wordle/wordlejavascript.js:161-165 | For every game solved at the first attempt: the state after that submission is solved, yet once six or more guesses are submitted and the latest misses the answer, the state is failed. No handler stops input once the game is solved. |
| `Game.FeedbackLength` | Wordle/wordlejavascript.js:156 | The colour sequence of n submitted guesses has exactly 5 * n colours. |
| `Game.FeedbackCell` | Wordle/wordlejavascript.js:82-83 | The colour read for letter i of row j, at index j * 5 + i, is the verdict of that row's guess at position i. |
| `Game.EditRowKeepsConsistent` | Wordle/wordlejavascript.js:213-259 | Replacing the row being typed by an upper-case row of at most five letters keeps the session invariant. |
| `Game.SubmissionKeepsConsistent` | Wordle/wordlejavascript.js:154-165 | Recording a valid guess keeps the session invariant, with the state the source sets. Recording means storing the guess at the current row, appending its verdict and adding one to the counter. |
| `Game.Session.constructor` | Wordle/wordlejavascript.js:10-14 | The globals start with their declared values: empty answer, no rows, no colours, counter 0 and state unfinished. |
| `Game.Session.Initialize` | Wordle/wordlejavascript.js:114-120 | Starting a game picks the answer at the given index. It resets the counter to 0, the state to unfinished and the colours to empty, and sets six empty rows. The session invariant then holds. |
| `Game.Session.HandleKeyClick` | Wordle/wordlejavascript.js:213-224 | Enter and backspace change nothing. A letter typed into a row shorter than five is appended in upper case, and nothing else changes. On a full row nothing changes, so a row never exceeds five letters. |
| `Game.Session.DeleteCharacter` | Wordle/wordlejavascript.js:241-260 | With the counter past the last row, or with an empty row, nothing changes and the condition is reported. Otherwise exactly the last letter of the current row is removed, and every other row is unchanged. |
| `Game.Session.HandleAnswer` | Wordle/wordlejavascript.js:148-168 | A word outside the bank is rejected before any scoring, with all state unchanged. A valid guess is stored at the old counter, exactly its five colours are appended and the counter goes up by exactly one. The state becomes solved if the guess is the answer; otherwise failed if the counter reached six or more; otherwise it stays. |
| `Game.Session.SubmitGuess` | Wordle/wordlejavascript.js:229-236 | A row that is not five letters long is rejected with all state unchanged, and so is a row outside the bank. Otherwise the lower-cased row, a bank word, is recorded as `HandleAnswer` states. |

## Left out

- `start` and `render`: they query the page, attach event listeners and build the grid and
  its CSS classes. This is presentation only. `FeedbackCell` states what the grid reads from
  `colorSequence`.
- The `alert` and `console.error` calls: each becomes a returned `Outcome` value. The
  messages shown after a solved or failed game are presentation; the state they read is
  modelled.
- `Math.random` in `generateRandomAnswer`: the index it would draw is a parameter, limited to
  the bank's range. Uniformity is not modelled.
- The `typeof currentRow !== "string"` check and the `|| ""` defaults: rows are strings in a
  typed model. An absent row reads as empty (`RowAt`), which covers the defaults.
- `Game.Session.HandleKeyClick`: requires a single-character key, or one of the two special
  keys. The physical keyboard handler passes only single letters; the model assumes the
  on-screen letter keys hold one letter each, since the page markup is not part of this
  model. A longer key could push a row past five letters; that case is not modelled.
- `WordBank.Lowercase`, `WordBank.Uppercase`: only ASCII letters change case, whereas the
  script's `toLowerCase` and `toUpperCase` follow Unicode. The bank and the keys are ASCII.
- `Scoring.CalculateColorSequence`: requires both words to have length 5. Its only caller
  passes a bank word and a guess that passed the bank check. The source reads the letters of
  shorter strings as `undefined`, which is not modelled.
