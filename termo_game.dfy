// The game simulation hook: the day's secret word, the log of guesses with
// their statuses, the operation that grades and logs a guess, and the colour
// class shown for each status.
module TermoGame {
  import opened Grading
  import DailyWord

  /** A logged guess: the word as typed and one status per position. */
  datatype TermoGuess = TermoGuess(word: string, statuses: seq<LetterStatus>)

  /** The letter-count table of `s`: one key per distinct letter, mapped to
    * the number of times it occurs. */
  method CountLetters(s: string) returns (m: map<char, nat>)
    ensures forall c :: c in m <==> c in s
    ensures forall c :: c in m ==> m[c] == Occurrences(s, c)
  {
    m := map[];
    var i := 0;
    while i < |s|
      invariant 0 <= i <= |s|
      invariant forall c :: c in m <==> c in s[..i]
      invariant forall c :: c in m ==> m[c] == Occurrences(s[..i], c)
    {
      assert s[..i + 1][..i] == s[..i];
      assert s[..i + 1] == s[..i] + [s[i]];
      m := m[s[i] := (if s[i] in m then m[s[i]] else 0) + 1];
      i := i + 1;
    }
    assert s[..i] == s;
  }

  class Game {
    /** The secret, fixed when the game is created. */
    const todaysWord: string
    /** The guesses made so far, oldest first. */
    var termoGuesses: seq<TermoGuess>

    /** Starts a game for the given "YYYY-MM-DD" date and answer list. */
    constructor (date: string, answers: seq<string>)
      requires DailyWord.IsAscii(date) && |answers| > 0
      ensures todaysWord == answers[DailyWord.DayIndex(date, |answers|)]
      ensures todaysWord in answers
      ensures termoGuesses == []
    {
      todaysWord := DailyWord.TodaysWord(date, answers).value;
      termoGuesses := [];
    }

    /** Grades `word` against the day's word in one left-to-right pass and
      * appends it, with its statuses, to the log. */
    method AddTermoGuess(word: string)
      modifies this
      ensures termoGuesses == old(termoGuesses) + [TermoGuess(word, Feedback(todaysWord, word))]
    {
      var count := CountLetters(todaysWord);
      var statuses := new LetterStatus[|word|](_ => Absent);
      var i := 0;
      while i < |word|
        invariant 0 <= i <= |word|
        invariant termoGuesses == old(termoGuesses)
        invariant forall j :: 0 <= j < i ==> statuses[j] == GradeAt(todaysWord, word, j, false)
        invariant forall j :: i <= j < |word| ==> statuses[j] == Absent
        invariant forall c :: c in count <==> c in todaysWord
        invariant forall c :: c in count ==>
          count[c] == Occurrences(todaysWord, c) - Min(Unmatched(todaysWord, word, c, i), Occurrences(todaysWord, c))
      {
        if i < |todaysWord| && word[i] == todaysWord[i] {
          statuses[i] := Correct;
        } else if word[i] in todaysWord && count[word[i]] > 0 {
          statuses[i] := ExistSomewhereElse;
          count := count[word[i] := count[word[i]] - 1];
        }
        i := i + 1;
      }
      assert statuses[..] == Feedback(todaysWord, word);
      termoGuesses := termoGuesses + [TermoGuess(word, statuses[..])];
    }
  }

  const GreenClass := "bg-green-500 text-white"
  const YellowClass := "bg-yellow-500 text-white"
  const GrayClass := "bg-gray-300 text-gray-700"

  /** The colour class of a status: green for a match, yellow for a letter
    * found elsewhere, one shared gray for both kinds of absence. */
  function GetLetterColor(status: LetterStatus): (color: string)
    ensures color == GreenClass <==> status == Correct
    ensures color == YellowClass <==> status == ExistSomewhereElse
    ensures color == GrayClass <==> status == Absent || status == TrueAbsent
  {
    match status
    case Correct => GreenClass
    case ExistSomewhereElse => YellowClass
    case _ => GrayClass
  }
}
