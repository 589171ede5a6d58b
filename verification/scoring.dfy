/**
 * Guess scoring: the verdict of one guess against the answer, one colour per
 * position, computed in two passes over a per-letter counter (exact matches
 * first, then misplaced letters while the letter still has copies left).
 */
module Scoring {

  /** Length of the answer and of every guess. */
  const AnswerLength := 5

  /** One verdict per letter: grey "b" (absent), yellow "y" (present elsewhere), green "g" (exact). */
  datatype Color = Grey | Yellow | Green

  /** Number of occurrences of the letter `c` in `s`. */
  function Occurrences(s: string, c: char): nat
  {
    if |s| == 0 then 0
    else Occurrences(s[..|s| - 1], c) + (if s[|s| - 1] == c then 1 else 0)
  }

  /** Number of positions j < |marks| that carry the colour `col` and hold the letter `c` in `guess`. */
  function Tally(guess: string, marks: seq<Color>, col: Color, c: char): nat
    requires |marks| <= |guess|
  {
    if |marks| == 0 then 0
    else
      var j := |marks| - 1;
      Tally(guess, marks[..j], col, c) + (if marks[j] == col && guess[j] == c then 1 else 0)
  }

  /** The marks after the exact-match pass: green where the letters agree, grey elsewhere. */
  function ExactMatches(guess: string, answer: string): (r: seq<Color>)
    requires |guess| == |answer|
    ensures |r| == |guess|
  {
    seq(|guess|, i requires 0 <= i < |guess| => if guess[i] == answer[i] then Green else Grey)
  }

  /**
   * How many copies of `c` in the answer are still unclaimed once every exact
   * match and every yellow in `marked` (a prefix of the verdict) has taken one:
   * the value of the letter counter while the presence pass runs.
   */
  function Remaining(guess: string, answer: string, marked: seq<Color>, c: char): int
    requires |guess| == |answer| && |marked| <= |guess|
  {
    Occurrences(answer, c)
    - Tally(guess, ExactMatches(guess, answer), Green, c)
    - Tally(guess, marked, Yellow, c)
  }

  /** The first n marks of the verdict, position by position. */
  function ScorePrefix(guess: string, answer: string, n: nat): (r: seq<Color>)
    requires |guess| == |answer| && n <= |guess|
    ensures |r| == n
  {
    if n == 0 then []
    else
      var marked := ScorePrefix(guess, answer, n - 1);
      var i := n - 1;
      marked + [if guess[i] == answer[i] then Green
                else if Remaining(guess, answer, marked, guess[i]) > 0 then Yellow
                else Grey]
  }

  /** The verdict of `guess` against `answer`. */
  function Score(guess: string, answer: string): seq<Color>
    requires |guess| == |answer|
  {
    ScorePrefix(guess, answer, |guess|)
  }

  function Min(x: int, y: int): int { if x <= y then x else y }

  /** A shorter prefix of the verdict is a prefix of a longer one. */
  lemma {:induction false} ScorePrefixStable(guess: string, answer: string, m: nat, n: nat)
    requires |guess| == |answer| && m <= n <= |guess|
    ensures ScorePrefix(guess, answer, n)[..m] == ScorePrefix(guess, answer, m)
  {
    if m < n {
      ScorePrefixStable(guess, answer, m, n - 1);
      var p := ScorePrefix(guess, answer, n - 1);
      assert ScorePrefix(guess, answer, n)[..n - 1] == p;
    }
  }

  /** The mark at position i is decided with the marks before i already fixed. */
  lemma ScoreAt(guess: string, answer: string, i: nat)
    requires |guess| == |answer| && i < |guess|
    ensures Score(guess, answer)[..i] == ScorePrefix(guess, answer, i)
    ensures Score(guess, answer)[i] ==
      if guess[i] == answer[i] then Green
      else if Remaining(guess, answer, ScorePrefix(guess, answer, i), guess[i]) > 0 then Yellow
      else Grey
  {
    ScorePrefixStable(guess, answer, i, |guess|);
    ScorePrefixStable(guess, answer, i + 1, |guess|);
    assert Score(guess, answer)[i] == ScorePrefix(guess, answer, i + 1)[i];
  }

  /** A position is green exactly when the guess and the answer agree there. */
  lemma GreenExactlyOnMatch(guess: string, answer: string)
    requires |guess| == |answer|
    ensures |Score(guess, answer)| == |guess|
    ensures forall i :: 0 <= i < |guess| ==> (Score(guess, answer)[i] == Green <==> guess[i] == answer[i])
  {
    forall i | 0 <= i < |guess|
      ensures Score(guess, answer)[i] == Green <==> guess[i] == answer[i]
    {
      ScoreAt(guess, answer, i);
    }
  }

  /** Scoring a word against itself gives all greens. */
  lemma SelfScoreAllGreen(word: string)
    ensures Score(word, word) == seq(|word|, _ => Green)
  {
    GreenExactlyOnMatch(word, word);
  }

  /** The occurrences in a prefix never exceed those in the whole string. */
  lemma {:induction false} OccurrencesPrefix(s: string, n: nat, c: char)
    requires n <= |s|
    ensures Occurrences(s[..n], c) <= Occurrences(s, c)
  {
    if n < |s| {
      OccurrencesPrefix(s[..|s| - 1], n, c);
      assert s[..|s| - 1][..n] == s[..n];
      assert s[..|s|] == s;
    } else {
      assert s[..n] == s;
    }
  }

  /** Among any prefix, the exact matches on a letter are at most its occurrences in the answer. */
  lemma {:induction false} ExactMatchesBound(guess: string, answer: string, n: nat, c: char)
    requires |guess| == |answer| && n <= |guess|
    ensures Tally(guess, ExactMatches(guess, answer)[..n], Green, c) <= Occurrences(answer[..n], c)
  {
    if n > 0 {
      var em := ExactMatches(guess, answer);
      ExactMatchesBound(guess, answer, n - 1, c);
      assert em[..n][..n - 1] == em[..n - 1];
      assert answer[..n][..n - 1] == answer[..n - 1];
    }
  }

  /** Every exact match on a letter consumes one of its occurrences in the answer. */
  lemma ExactMatchesWithinAnswer(guess: string, answer: string, c: char)
    requires |guess| == |answer|
    ensures Tally(guess, ExactMatches(guess, answer), Green, c) <= Occurrences(answer, c)
  {
    ExactMatchesBound(guess, answer, |guess|, c);
    assert ExactMatches(guess, answer)[..|guess|] == ExactMatches(guess, answer);
    assert answer[..|answer|] == answer;
  }

  /** Each position of the exact-match pass is green or grey, so the two tallies share out the letter. */
  lemma {:induction false} ExactMatchesSplit(guess: string, answer: string, n: nat, c: char)
    requires |guess| == |answer| && n <= |guess|
    ensures Tally(guess, ExactMatches(guess, answer)[..n], Green, c)
          + Tally(guess, ExactMatches(guess, answer)[..n], Grey, c) == Occurrences(guess[..n], c)
  {
    if n > 0 {
      var em := ExactMatches(guess, answer);
      ExactMatchesSplit(guess, answer, n - 1, c);
      assert em[..n][..n - 1] == em[..n - 1];
      assert guess[..n][..n - 1] == guess[..n - 1];
    }
  }

  /** The greens of the verdict are those of the exact-match pass: the presence pass never overwrites one. */
  lemma {:induction false} GreensAgree(guess: string, answer: string, n: nat, c: char)
    requires |guess| == |answer| && n <= |guess|
    ensures Tally(guess, ScorePrefix(guess, answer, n), Green, c)
         == Tally(guess, ExactMatches(guess, answer)[..n], Green, c)
  {
    if n > 0 {
      var em := ExactMatches(guess, answer);
      GreensAgree(guess, answer, n - 1, c);
      assert em[..n][..n - 1] == em[..n - 1];
      assert ScorePrefix(guess, answer, n)[..n - 1] == ScorePrefix(guess, answer, n - 1);
    }
  }

  /**
   * The yellows on a letter in the first n positions: as many as its non-matching
   * occurrences there, but no more than the copies the exact matches left over.
   */
  lemma {:induction false} YellowsOnLetter(guess: string, answer: string, n: nat, c: char)
    requires |guess| == |answer| && n <= |guess|
    ensures Tally(guess, ScorePrefix(guess, answer, n), Yellow, c)
         == Min(Tally(guess, ExactMatches(guess, answer)[..n], Grey, c),
                Occurrences(answer, c) - Tally(guess, ExactMatches(guess, answer), Green, c))
  {
    var em := ExactMatches(guess, answer);
    if n == 0 {
      ExactMatchesWithinAnswer(guess, answer, c);
    } else {
      YellowsOnLetter(guess, answer, n - 1, c);
      assert em[..n][..n - 1] == em[..n - 1];
      assert ScorePrefix(guess, answer, n)[..n - 1] == ScorePrefix(guess, answer, n - 1);
    }
  }

  /**
   * Letter conservation: for every letter, the green and yellow marks on the
   * positions holding it number exactly the smaller of its occurrences in the
   * guess and in the answer, so never more than the answer holds.
   */
  lemma MarkedLetters(guess: string, answer: string, c: char)
    requires |guess| == |answer|
    ensures Tally(guess, Score(guess, answer), Green, c) + Tally(guess, Score(guess, answer), Yellow, c)
         == Min(Occurrences(guess, c), Occurrences(answer, c))
    ensures Tally(guess, Score(guess, answer), Green, c) + Tally(guess, Score(guess, answer), Yellow, c)
         <= Occurrences(answer, c)
  {
    var n := |guess|;
    var em := ExactMatches(guess, answer);
    GreensAgree(guess, answer, n, c);
    YellowsOnLetter(guess, answer, n, c);
    ExactMatchesSplit(guess, answer, n, c);
    ExactMatchesWithinAnswer(guess, answer, c);
    assert em[..n] == em;
    assert guess[..n] == guess;
  }

  /** The letter counter never goes negative while the presence pass runs. */
  lemma CounterNonNegative(guess: string, answer: string, n: nat, c: char)
    requires |guess| == |answer| && n <= |guess|
    ensures Remaining(guess, answer, ScorePrefix(guess, answer, n), c) >= 0
  {
    YellowsOnLetter(guess, answer, n, c);
    ExactMatchesWithinAnswer(guess, answer, c);
  }

  /** A yellow is only given to a letter that occurs in the answer. */
  lemma YellowOnlyIfPresent(guess: string, answer: string, i: nat)
    requires |guess| == |answer| && i < |guess|
    requires Score(guess, answer)[i] == Yellow
    ensures guess[i] != answer[i]
    ensures Occurrences(answer, guess[i]) > 0
  {
    ScoreAt(guess, answer, i);
  }

  /** The value the source reads from its letter table: a missing letter reads as 0. */
  function Count(letterCount: map<char, int>, c: char): int
  {
    if c in letterCount then letterCount[c] else 0
  }

  /** The letter table holds the histogram of `s`. */
  ghost predicate IsHistogram(letterCount: map<char, int>, s: string)
  {
    forall c :: Count(letterCount, c) == Occurrences(s, c)
  }

  /** The letter table after the exact-match pass has looked at the first i positions. */
  ghost predicate CountsAfterExactMatches(letterCount: map<char, int>, guess: string, answer: string, i: nat)
    requires |guess| == |answer| && i <= |guess|
  {
    forall c :: 0 <= Count(letterCount, c) == Occurrences(answer, c) - Tally(guess, ExactMatches(guess, answer)[..i], Green, c)
  }

  /** The letter table after the presence pass has looked at the first i positions. */
  ghost predicate CountsDuringPresence(letterCount: map<char, int>, guess: string, answer: string, i: nat)
    requires |guess| == |answer| && i <= |guess|
  {
    forall c :: 0 <= Count(letterCount, c) == Remaining(guess, answer, ScorePrefix(guess, answer, i), c)
  }

  /** One step of the histogram loop: the count of the letter read goes up by one. */
  lemma HistogramStep(answer: string, i: nat, before: map<char, int>, after: map<char, int>)
    requires i < |answer| && IsHistogram(before, answer[..i])
    requires after == before[answer[i] := Count(before, answer[i]) + 1]
    ensures IsHistogram(after, answer[..i + 1])
  {
    forall c ensures Count(after, c) == Occurrences(answer[..i + 1], c) {
      assert answer[..i + 1][..i] == answer[..i];
    }
  }

  /** Once the histogram is complete, the exact-match pass starts from it. */
  lemma ExactMatchesStart(guess: string, answer: string, letterCount: map<char, int>)
    requires |guess| == |answer| && IsHistogram(letterCount, answer[..|answer|])
    ensures CountsAfterExactMatches(letterCount, guess, answer, 0)
  {
    assert answer[..|answer|] == answer;
  }

  /** One step of the exact-match pass: a match consumes one count of its letter. */
  lemma ExactMatchStep(guess: string, answer: string, i: nat, before: map<char, int>, after: map<char, int>)
    requires |guess| == |answer| && i < |guess|
    requires CountsAfterExactMatches(before, guess, answer, i)
    requires after == if guess[i] == answer[i] then before[guess[i] := Count(before, guess[i]) - 1] else before
    ensures CountsAfterExactMatches(after, guess, answer, i + 1)
  {
    var em := ExactMatches(guess, answer);
    assert em[..i + 1][..i] == em[..i];
    forall c ensures Count(after, c) >= 0 {
      ExactMatchesBound(guess, answer, i + 1, c);
      OccurrencesPrefix(answer, i + 1, c);
    }
  }

  /** Once the exact-match pass is over, the presence pass starts from its table. */
  lemma PresenceStart(guess: string, answer: string, letterCount: map<char, int>)
    requires |guess| == |answer| && CountsAfterExactMatches(letterCount, guess, answer, |guess|)
    ensures CountsDuringPresence(letterCount, guess, answer, 0)
  {
    assert ExactMatches(guess, answer)[..|guess|] == ExactMatches(guess, answer);
  }

  /**
   * One step of the presence pass: position i turns yellow when it is not an
   * exact match and its letter still has a positive count, which it then consumes.
   */
  lemma PresenceStep(guess: string, answer: string, i: nat, before: map<char, int>, after: map<char, int>)
    requires |guess| == |answer| && i < |guess|
    requires CountsDuringPresence(before, guess, answer, i)
    requires after ==
      if guess[i] != answer[i] && Count(before, guess[i]) > 0 then before[guess[i] := Count(before, guess[i]) - 1] else before
    ensures ScorePrefix(guess, answer, i + 1) == ScorePrefix(guess, answer, i) +
      [if guess[i] == answer[i] then Green else if Count(before, guess[i]) > 0 then Yellow else Grey]
    ensures CountsDuringPresence(after, guess, answer, i + 1)
  {
    var marked, next := ScorePrefix(guess, answer, i), ScorePrefix(guess, answer, i + 1);
    assert next[..i] == marked;
    forall c ensures Count(after, c) == Remaining(guess, answer, next, c) {
      assert Tally(guess, next, Yellow, c)
          == Tally(guess, marked, Yellow, c) + (if next[i] == Yellow && guess[i] == c then 1 else 0);
      if next[i] == Yellow && guess[i] == c {
        assert Count(after, c) == Count(before, c) - 1;
      } else {
        assert Count(after, c) == Count(before, c);
      }
    }
    forall c ensures Count(after, c) >= 0 {
      CounterNonNegative(guess, answer, i + 1, c);
    }
  }

  /**
   * The scorer as the source runs it: a histogram of the answer, an exact-match
   * pass that marks greens and consumes counts, and a presence pass that marks
   * yellows only while the letter's count is positive.
   */
  method CalculateColorSequence(guess: string, answer: string) returns (r: seq<Color>)
    requires |guess| == AnswerLength && |answer| == AnswerLength
    ensures r == Score(guess, answer)
  {
    var result: seq<Color> := seq(AnswerLength, _ => Grey);

    var letterCount: map<char, int> := map[];
    for i := 0 to AnswerLength
      invariant IsHistogram(letterCount, answer[..i])
      invariant forall j :: 0 <= j < i ==> answer[j] in letterCount
    {
      ghost var before := letterCount;
      var letter := answer[i];
      if letter in letterCount && letterCount[letter] != 0 {
        letterCount := letterCount[letter := letterCount[letter] + 1];
      } else {
        letterCount := letterCount[letter := 1];
      }
      HistogramStep(answer, i, before, letterCount);
    }
    ExactMatchesStart(guess, answer, letterCount);

    ghost var exact := ExactMatches(guess, answer);
    for i := 0 to AnswerLength
      invariant |result| == AnswerLength
      invariant forall j :: 0 <= j < i ==> result[j] == exact[j]
      invariant forall j :: i <= j < AnswerLength ==> result[j] == Grey
      invariant CountsAfterExactMatches(letterCount, guess, answer, i)
      invariant forall j :: 0 <= j < AnswerLength ==> answer[j] in letterCount
    {
      ghost var before := letterCount;
      if guess[i] == answer[i] {
        result := result[i := Green];
        letterCount := letterCount[guess[i] := letterCount[guess[i]] - 1];
      }
      ExactMatchStep(guess, answer, i, before, letterCount);
    }
    PresenceStart(guess, answer, letterCount);

    for i := 0 to AnswerLength
      invariant |result| == AnswerLength
      invariant result[..i] == ScorePrefix(guess, answer, i)
      invariant forall j :: i <= j < AnswerLength ==> result[j] == exact[j]
      invariant CountsDuringPresence(letterCount, guess, answer, i)
    {
      ghost var before := letterCount;
      if result[i] != Green && Count(letterCount, guess[i]) > 0 {
        result := result[i := Yellow];
        letterCount := letterCount[guess[i] := letterCount[guess[i]] - 1];
      }
      PresenceStep(guess, answer, i, before, letterCount);
      assert result[..i + 1] == result[..i] + [result[i]];
    }
    assert result[..AnswerLength] == result;
    r := result;
  }
}
