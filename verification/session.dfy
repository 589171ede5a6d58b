/**
 * One game session: the answer, the rows typed and submitted, the colours of
 * the submitted rows, the attempt counter and the game state, updated in place
 * by the key, delete and submit handlers.
 */
module Game {
  import opened Scoring
  import opened WordBank

  /** Number of attempts the board shows; reaching it without the answer fails the game. */
  const MaxGuessTime := 6

  /** The game state: "UNFINISHED", "SOLVED" or "FAILED". */
  datatype Status = Unfinished | Solved | Failed

  /** What a handler reports to the page in place of an alert or a logged error. */
  datatype Outcome =
    | Accepted        // the handler changed the session
    | Ignored         // a special key, or a letter typed into a full row: silently dropped
    | NotFullLength   // submission of a row that is not five letters long
    | InvalidWord     // submission of a word that is not in the bank
    | NothingToDelete // delete on an empty row
    | InvalidIndex    // delete while the attempt counter is past the last row (logged as an error)

  /** Assignment to element k of a script array: past the end it grows the array by one. */
  function Store(rows: seq<string>, k: nat, row: string): (r: seq<string>)
    requires k <= |rows|
    ensures |r| == if k < |rows| then |rows| else k + 1
    ensures r[k] == row
    ensures forall j :: 0 <= j < |rows| && j != k ==> r[j] == rows[j]
  {
    if k < |rows| then rows[k := row] else rows + [row]
  }

  /** Storing a row at index k leaves the rows before it as they were. */
  lemma StoreKeepsEarlierRows(rows: seq<string>, k: nat, row: string)
    requires k <= |rows|
    ensures Store(rows, k, row)[..k] == rows[..k]
    ensures Store(rows, k, row)[..k + 1] == rows[..k] + [row]
  {
  }

  /**
   * The game state after the submitted guesses, one submission at a time: a
   * guess equal to the answer solves the game; otherwise a guess that brings
   * the count to the maximum or beyond fails it; otherwise the state stays.
   */
  function StatusAfter(guesses: seq<string>, answer: string): Status
  {
    if |guesses| == 0 then Unfinished
    else if guesses[|guesses| - 1] == answer then Solved
    else if |guesses| >= MaxGuessTime then Failed
    else StatusAfter(guesses[..|guesses| - 1], answer)
  }

  /**
   * The state in closed form. With fewer than six submissions the game is solved
   * exactly when the answer was guessed at some point, and unfinished otherwise;
   * from the sixth submission on, only the latest guess decides: solved when it
   * is the answer, failed when it is not. No submission count leaves the game
   * unfinished from the sixth on.
   */
  lemma {:induction false} StatusClosedForm(guesses: seq<string>, answer: string)
    ensures StatusAfter(guesses, answer) ==
      if |guesses| >= MaxGuessTime then
        (if guesses[|guesses| - 1] == answer then Solved else Failed)
      else if answer in guesses then Solved
      else Unfinished
  {
    if 0 < |guesses| < MaxGuessTime && guesses[|guesses| - 1] != answer {
      var earlier := guesses[..|guesses| - 1];
      StatusClosedForm(earlier, answer);
      assert guesses == earlier + [guesses[|guesses| - 1]];
      assert answer in guesses <==> answer in earlier;
    }
  }

  /**
   * Nothing makes the solved state final: a game solved at the first attempt
   * still fails when a later guess, from the sixth submission on, misses the
   * answer.
   */
  lemma SolvedGameCanStillFail(guesses: seq<string>, answer: string)
    requires |guesses| >= MaxGuessTime
    requires guesses[0] == answer && guesses[|guesses| - 1] != answer
    ensures StatusAfter(guesses[..1], answer) == Solved
    ensures StatusAfter(guesses, answer) == Failed
  {
    StatusClosedForm(guesses[..1], answer);
    StatusClosedForm(guesses, answer);
  }

  /** The colours of the submitted guesses, five per guess, in submission order. */
  function Feedback(guesses: seq<string>, answer: string): seq<Color>
    requires forall j :: 0 <= j < |guesses| ==> |guesses[j]| == |answer|
  {
    if |guesses| == 0 then []
    else Feedback(guesses[..|guesses| - 1], answer) + Score(guesses[|guesses| - 1], answer)
  }

  /** Five colours per submitted guess. */
  lemma {:induction false} FeedbackLength(guesses: seq<string>, answer: string)
    requires |answer| == AnswerLength
    requires forall j :: 0 <= j < |guesses| ==> |guesses[j]| == AnswerLength
    ensures |Feedback(guesses, answer)| == AnswerLength * |guesses|
  {
    if |guesses| > 0 {
      FeedbackLength(guesses[..|guesses| - 1], answer);
      GreenExactlyOnMatch(guesses[|guesses| - 1], answer);
    }
  }

  /**
   * The colour the board shows for letter i of row j, read at index
   * j * 5 + i, is the verdict of that row's guess at position i.
   */
  lemma {:induction false} FeedbackCell(guesses: seq<string>, answer: string, j: nat, i: nat)
    requires |answer| == AnswerLength
    requires forall k :: 0 <= k < |guesses| ==> |guesses[k]| == AnswerLength
    requires j < |guesses| && i < AnswerLength
    ensures AnswerLength * j + i < |Feedback(guesses, answer)|
    ensures Feedback(guesses, answer)[AnswerLength * j + i] == Score(guesses[j], answer)[i]
  {
    var n := |guesses| - 1;
    var earlier := guesses[..n];
    FeedbackLength(earlier, answer);
    GreenExactlyOnMatch(guesses[n], answer);
    if j < n {
      FeedbackCell(earlier, answer, j, i);
    }
  }

  /** The row at index k of a script array; a row past its end reads as empty. */
  function RowAt(rows: seq<string>, k: nat): string
  {
    if k < |rows| then rows[k] else ""
  }

  /**
   * The session invariant, on the values of the globals: the answer is a bank
   * word; every submitted row is a valid five-letter guess; the colours are those
   * of the submitted rows and the state is the one their submission led to; the
   * row being typed is in upper case and at most five letters long, and the rows
   * after it are empty.
   */
  ghost predicate Consistent(answer: string, rows: seq<string>, colors: seq<Color>, k: nat, state: Status)
  {
    && answer in Words
    && |answer| == AnswerLength
    && MaxGuessTime <= |rows|
    && k <= |rows|
    && (forall j :: 0 <= j < k ==> |rows[j]| == AnswerLength && IsValidWord(rows[j]))
    && colors == Feedback(rows[..k], answer)
    && |colors| == AnswerLength * k
    && state == StatusAfter(rows[..k], answer)
    && |RowAt(rows, k)| <= AnswerLength
    && Uppercase(RowAt(rows, k)) == RowAt(rows, k)
    && (forall j :: k < j < |rows| ==> rows[j] == "")
  }

  /** Replacing the row being typed by another upper-case row of at most five letters keeps the invariant. */
  lemma EditRowKeepsConsistent(answer: string, rows: seq<string>, colors: seq<Color>, k: nat, state: Status, row: string,
                                rows': seq<string>)
    requires Consistent(answer, rows, colors, k, state)
    requires |row| <= AnswerLength && Uppercase(row) == row
    requires rows' == Store(rows, k, row)
    ensures Consistent(answer, rows', colors, k, state)
    ensures RowAt(rows', k) == row
  {
    StoreKeepsEarlierRows(rows, k, row);
  }

  /**
   * Recording a valid guess at the row being typed, appending its colours and
   * moving the counter on keeps the invariant, with the state the source sets.
   */
  lemma SubmissionKeepsConsistent(answer: string, rows: seq<string>, colors: seq<Color>, k: nat, state: Status, guess: string,
                                  rows': seq<string>, colors': seq<Color>, k': nat, state': Status)
    requires Consistent(answer, rows, colors, k, state)
    requires IsValidWord(guess)
    requires rows' == Store(rows, k, guess) && colors' == colors + Score(guess, answer) && k' == k + 1
    requires state' == if guess == answer then Solved else if k' >= MaxGuessTime then Failed else state
    ensures Consistent(answer, rows', colors', k', state')
  {
    var submitted := rows[..k];
    StoreKeepsEarlierRows(rows, k, guess);
    assert rows'[..k + 1] == submitted + [guess];
    assert (submitted + [guess])[..k] == submitted;
    FeedbackLength(submitted + [guess], answer);
  }

  class Session {
    var answer: string
    var wordSequence: seq<string>
    var colorSequence: seq<Color>
    var currentGuessTime: nat
    var state: Status

    /** The values the globals are declared with, before the first game starts. */
    constructor ()
      ensures answer == "" && wordSequence == [] && colorSequence == []
      ensures currentGuessTime == 0 && state == Unfinished
    {
      answer := "";
      wordSequence := [];
      colorSequence := [];
      currentGuessTime := 0;
      state := Unfinished;
    }

    /** The row being typed. */
    function CurrentRow(): string
      reads this
    {
      RowAt(wordSequence, currentGuessTime)
    }

    ghost predicate Valid()
      reads this
    {
      Consistent(answer, wordSequence, colorSequence, currentGuessTime, state)
    }

    /** Starts a game: `choice` stands for the random index of the answer in the bank. */
    method Initialize(choice: nat)
      requires choice < |Words|
      modifies this
      ensures Valid()
      ensures answer == GenerateRandomAnswer(choice)
      ensures currentGuessTime == 0 && state == Unfinished && colorSequence == []
      ensures wordSequence == seq(MaxGuessTime, _ => "")
    {
      answer := GenerateRandomAnswer(choice);
      currentGuessTime := 0;
      state := Unfinished;
      colorSequence := [];
      wordSequence := seq(MaxGuessTime, _ => "");
    }

    /**
     * A letter key: appended, in upper case, to a row shorter than five letters;
     * dropped on a full row. The enter and backspace keys are dropped here.
     */
    method HandleKeyClick(key: string) returns (outcome: Outcome)
      requires Valid()
      requires |key| == 1 || key == "ENTER" || key == "BACKSPACE"
      modifies this`wordSequence
      ensures Valid()
      ensures
        var row := old(CurrentRow());
        if key == "ENTER" || key == "BACKSPACE" || |row| >= AnswerLength then
          outcome == Ignored && wordSequence == old(wordSequence)
        else
          && outcome == Accepted
          && wordSequence == Store(old(wordSequence), currentGuessTime, row + [ToUpper(key[0])])
          && CurrentRow() == row + [ToUpper(key[0])]
    {
      if key == "ENTER" || key == "BACKSPACE" {
        return Ignored;
      }
      var currentRow := CurrentRow();
      if |currentRow| < AnswerLength {
        var newRow := Uppercase(currentRow + key);
        UppercaseFacts(currentRow, key);
        assert newRow == currentRow + [ToUpper(key[0])];
        UppercaseFacts(newRow, "");
        wordSequence := Store(wordSequence, currentGuessTime, newRow);
        EditRowKeepsConsistent(answer, old(wordSequence), colorSequence, currentGuessTime, state, newRow, wordSequence);
        outcome := Accepted;
      } else {
        outcome := Ignored;
      }
    }

    /**
     * Removes the last letter of the row being typed; reports an empty row, and
     * an attempt counter past the last row, without changing anything.
     */
    method DeleteCharacter() returns (outcome: Outcome)
      requires Valid()
      modifies this`wordSequence
      ensures Valid()
      ensures old(currentGuessTime >= |wordSequence|) ==> outcome == InvalidIndex && unchanged(this)
      ensures old(currentGuessTime < |wordSequence|) && old(CurrentRow()) == [] ==>
        outcome == NothingToDelete && unchanged(this)
      ensures old(currentGuessTime < |wordSequence|) && old(CurrentRow()) != [] ==>
        && outcome == Accepted
        && |wordSequence| == old(|wordSequence|)
        && (forall j :: 0 <= j < |wordSequence| && j != currentGuessTime ==> wordSequence[j] == old(wordSequence[j]))
        && CurrentRow() + [old(CurrentRow())[|old(CurrentRow())| - 1]] == old(CurrentRow())
    {
      if currentGuessTime >= |wordSequence| {
        return InvalidIndex;
      }
      var currentRow := wordSequence[currentGuessTime];
      if |currentRow| == 0 {
        return NothingToDelete;
      }
      var newRow := currentRow[..|currentRow| - 1];
      assert currentRow == newRow + [currentRow[|currentRow| - 1]];
      UppercaseFacts(newRow, [currentRow[|currentRow| - 1]]);
      wordSequence := wordSequence[currentGuessTime := newRow];
      EditRowKeepsConsistent(answer, old(wordSequence), colorSequence, currentGuessTime, state, newRow, wordSequence);
      outcome := Accepted;
    }

    /**
     * Records a guess: a word outside the bank is rejected with nothing changed;
     * otherwise it is stored at the current row, its colours are appended, the
     * counter moves on, and the state becomes solved on the answer, failed when
     * the counter reaches six without it, and stays as it was otherwise.
     */
    method HandleAnswer(guess: string) returns (outcome: Outcome)
      requires Valid()
      modifies this`wordSequence, this`colorSequence, this`currentGuessTime, this`state
      ensures Valid()
      ensures !IsValidWord(guess) ==> outcome == InvalidWord && unchanged(this)
      ensures IsValidWord(guess) ==>
        && outcome == Accepted
        && wordSequence == Store(old(wordSequence), old(currentGuessTime), guess)
        && colorSequence == old(colorSequence) + Score(guess, answer)
        && currentGuessTime == old(currentGuessTime) + 1
        && state == (if guess == answer then Solved
                     else if currentGuessTime >= MaxGuessTime then Failed
                     else old(state))
    {
      if !IsValidWord(guess) {
        return InvalidWord;
      }
      var colorSeq := CalculateColorSequence(guess, answer);
      wordSequence := Store(wordSequence, currentGuessTime, guess);
      colorSequence := colorSequence + colorSeq;
      currentGuessTime := currentGuessTime + 1;
      if guess == answer {
        state := Solved;
      } else if currentGuessTime >= MaxGuessTime {
        state := Failed;
      }
      outcome := Accepted;
      SubmissionKeepsConsistent(answer, old(wordSequence), old(colorSequence), old(currentGuessTime), old(state), guess,
                                wordSequence, colorSequence, currentGuessTime, state);
    }

    /**
     * Submits the row being typed: a row that is not five letters long is
     * rejected with nothing changed; otherwise its lower-case form is handed to
     * HandleAnswer, which rejects it, again with nothing changed, when it is not
     * a bank word, and records it when it is.
     */
    method SubmitGuess() returns (outcome: Outcome)
      requires Valid()
      modifies this`wordSequence, this`colorSequence, this`currentGuessTime, this`state
      ensures Valid()
      ensures |old(CurrentRow())| != AnswerLength ==> outcome == NotFullLength && unchanged(this)
      ensures |old(CurrentRow())| == AnswerLength && !IsValidWord(old(CurrentRow())) ==>
        outcome == InvalidWord && unchanged(this)
      ensures |old(CurrentRow())| == AnswerLength && IsValidWord(old(CurrentRow())) ==>
        var guess := Lowercase(old(CurrentRow()));
        && outcome == Accepted
        && guess in Words
        && |wordSequence| == old(|wordSequence|)
        && wordSequence == old(wordSequence)[old(currentGuessTime) := guess]
        && colorSequence == old(colorSequence) + Score(guess, answer)
        && currentGuessTime == old(currentGuessTime) + 1
        && state == (if guess == answer then Solved
                     else if currentGuessTime >= MaxGuessTime then Failed
                     else old(state))
    {
      var currentRow := CurrentRow();
      if |currentRow| == AnswerLength {
        LowercaseFixes(currentRow);
        outcome := HandleAnswer(Lowercase(currentRow));
      } else {
        outcome := NotFullLength;
      }
    }
  }
}
