/**
 * The built-in word bank: the answer is drawn from it, and a guess is only
 * accepted when its lower-case form is one of its words.
 */
module WordBank {
  import opened Scoring

  /** The nine bank words, all lower-case and all of the answer's length. */
  const Words: seq<string> := ["apple", "grape", "peach", "melon", "berry", "lemon", "plums", "kiwis", "banan"]

  /** Lower-case form of an ASCII letter; every other character is left as it is. */
  function ToLower(c: char): char
  {
    if 'A' <= c <= 'Z' then (c as int - 'A' as int + 'a' as int) as char else c
  }

  /** Upper-case form of an ASCII letter; every other character is left as it is. */
  function ToUpper(c: char): char
  {
    if 'a' <= c <= 'z' then (c as int - 'a' as int + 'A' as int) as char else c
  }

  function Lowercase(s: string): string
  {
    seq(|s|, i requires 0 <= i < |s| => ToLower(s[i]))
  }

  function Uppercase(s: string): string
  {
    seq(|s|, i requires 0 <= i < |s| => ToUpper(s[i]))
  }

  /** A string with no upper-case ASCII letter. */
  predicate IsLowercase(s: string)
  {
    forall i :: 0 <= i < |s| ==> !('A' <= s[i] <= 'Z')
  }

  /** Lower-casing changes nothing in a string that has no upper-case letter, and is idempotent. */
  lemma LowercaseFixes(s: string)
    ensures IsLowercase(Lowercase(s))
    ensures IsLowercase(s) ==> Lowercase(s) == s
    ensures Lowercase(Lowercase(s)) == Lowercase(s)
  {
  }

  /** Upper-casing is idempotent, and it distributes over concatenation. */
  lemma UppercaseFacts(s: string, t: string)
    ensures Uppercase(Uppercase(s)) == Uppercase(s)
    ensures Uppercase(s + t) == Uppercase(s) + Uppercase(t)
  {
  }

  /** Lower-casing undoes upper-casing on a string with no upper-case letter. */
  lemma LowercaseUppercase(s: string)
    requires IsLowercase(s)
    ensures Lowercase(Uppercase(s)) == s
  {
  }

  /** Every bank word has the answer's length and no upper-case letter. */
  lemma BankWordsWellFormed()
    ensures forall w :: w in Words ==> |w| == AnswerLength && IsLowercase(w)
  {
  }

  /**
   * Case-insensitive membership in the bank. An accepted word always has the
   * answer's length, and every bank word is accepted.
   */
  function IsValidWord(word: string): (valid: bool)
    ensures valid ==> |word| == AnswerLength && Lowercase(word) in Words
    ensures word in Words ==> valid
  {
    BankWordsWellFormed();
    LowercaseFixes(word);
    Lowercase(word) in Words
  }

  /**
   * The answer picked for a new game; `choice` stands for the random index the
   * source draws. The pick is always a bank word, hence always a valid guess.
   */
  function GenerateRandomAnswer(choice: nat): (answer: string)
    requires choice < |Words|
    ensures answer in Words && |answer| == AnswerLength && IsLowercase(answer)
    ensures IsValidWord(answer)
  {
    BankWordsWellFormed();
    Words[choice]
  }

  /** The bank check ignores case: a word, its upper-case and its lower-case form are all accepted or all rejected. */
  lemma IsValidWordIgnoresCase(word: string)
    ensures IsValidWord(Uppercase(word)) == IsValidWord(word)
    ensures IsValidWord(Lowercase(word)) == IsValidWord(word)
  {
    assert Lowercase(Uppercase(word)) == Lowercase(word);
    LowercaseFixes(word);
  }

  /** A bank word typed in upper case, as rows are, is accepted and lower-cases back to itself. */
  lemma TypedBankWordAccepted(word: string)
    requires word in Words
    ensures Lowercase(Uppercase(word)) == word
    ensures IsValidWord(Uppercase(word))
  {
    BankWordsWellFormed();
    LowercaseUppercase(word);
  }
}
