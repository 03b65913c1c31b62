// Letter-by-letter feedback for a guess against the secret word.
//
// The hook grades a guess in ONE left-to-right pass over a table that starts
// with every letter's count in the secret: an exact match is "correct" and
// leaves the table alone; any other position whose letter still has a count
// above zero is "existSomewhereElse" and takes one from the count; everything
// else stays "absent". Replaying that pass gives a closed form: a non-matching
// position i holding letter c is "existSomewhereElse" exactly when fewer than
// Occurrences(secret, c) earlier positions hold c without matching.
//
// The usual two-pass rule (exact matches first reserve their letters) is
// defined beside it, as a reference, with the inputs where the two differ.
module Grading {

  datatype LetterStatus = Correct | ExistSomewhereElse | Absent | TrueAbsent

  /** Number of positions of `s` holding `c`. */
  function Occurrences(s: string, c: char): (n: nat)
    ensures n > 0 <==> c in s
    ensures n <= |s|
  {
    if |s| == 0 then 0
    else
      assert s == s[..|s| - 1] + [s[|s| - 1]];
      Occurrences(s[..|s| - 1], c) + (if s[|s| - 1] == c then 1 else 0)
  }

  /** Position i of the guess holds the secret's letter at i (the secret may be shorter). */
  predicate IsExact(secret: string, word: string, i: nat)
    requires i < |word|
  {
    i < |secret| && word[i] == secret[i]
  }

  /** Positions before n that hold `c` and do not match the secret. */
  function Unmatched(secret: string, word: string, c: char, n: nat): (k: nat)
    requires n <= |word|
    ensures k <= n
  {
    if n == 0 then 0
    else Unmatched(secret, word, c, n - 1) + (if word[n - 1] == c && !IsExact(secret, word, n - 1) then 1 else 0)
  }

  /** Positions before n that hold `c` and match the secret. */
  function Exact(secret: string, word: string, c: char, n: nat): (k: nat)
    requires n <= |word|
    ensures k <= n
  {
    if n == 0 then 0
    else Exact(secret, word, c, n - 1) + (if word[n - 1] == c && IsExact(secret, word, n - 1) then 1 else 0)
  }

  /** How many "existSomewhereElse" marks letter c may receive: its count in
    * the secret, less the exact matches when those are reserved first. */
  function Budget(secret: string, word: string, c: char, reserve: bool): int
  {
    Occurrences(secret, c) - (if reserve then Exact(secret, word, c, |word|) else 0)
  }

  function GradeAt(secret: string, word: string, i: nat, reserve: bool): LetterStatus
    requires i < |word|
  {
    if IsExact(secret, word, i) then Correct
    else if Unmatched(secret, word, word[i], i) < Budget(secret, word, word[i], reserve) then ExistSomewhereElse
    else Absent
  }

  /** The statuses the hook computes for `word` against `secret`. */
  function Feedback(secret: string, word: string): (r: seq<LetterStatus>)
    ensures |r| == |word|
    ensures forall i :: 0 <= i < |word| ==> (r[i] == Correct <==> IsExact(secret, word, i))
    ensures forall i :: 0 <= i < |word| && r[i] == ExistSomewhereElse ==>
      !IsExact(secret, word, i) && word[i] in secret
    ensures forall i :: 0 <= i < |word| ==> r[i] != TrueAbsent
  {
    seq(|word|, i requires 0 <= i < |word| => GradeAt(secret, word, i, false))
  }

  /** The two-pass rule: exact matches are graded first and use up their letters. */
  function TwoPassFeedback(secret: string, word: string): (r: seq<LetterStatus>)
    ensures |r| == |word|
    ensures forall i :: 0 <= i < |word| ==> (r[i] == Correct <==> IsExact(secret, word, i))
    ensures forall i :: 0 <= i < |word| ==> r[i] != TrueAbsent
  {
    seq(|word|, i requires 0 <= i < |word| => GradeAt(secret, word, i, true))
  }

  /** Positions before n holding letter c and marked `status` in `r`. */
  function Marked(word: string, r: seq<LetterStatus>, c: char, status: LetterStatus, n: nat): (k: nat)
    requires n <= |word| && n <= |r|
    ensures k <= n
  {
    if n == 0 then 0
    else Marked(word, r, c, status, n - 1) + (if word[n - 1] == c && r[n - 1] == status then 1 else 0)
  }

  function Min(a: int, b: int): int
  {
    if a <= b then a else b
  }

  /** The exact matches of a letter never outnumber its occurrences in the secret. */
  lemma {:induction false} ExactWithinSecret(secret: string, word: string, c: char, n: nat)
    requires n <= |word|
    ensures Exact(secret, word, c, n) <= Occurrences(secret[..Min(n, |secret|)], c)
    decreases n
  {
    if n > 0 {
      ExactWithinSecret(secret, word, c, n - 1);
      if n <= |secret| {
        assert secret[..n][..n - 1] == secret[..n - 1];
      } else {
        assert Min(n - 1, |secret|) == |secret|;
      }
    }
  }

  /** A prefix holds no more occurrences than the whole. */
  lemma {:induction false} OccurrencesPrefix(s: string, n: nat, c: char)
    requires n <= |s|
    ensures Occurrences(s[..n], c) <= Occurrences(s, c)
    decreases |s|
  {
    if n < |s| {
      OccurrencesPrefix(s[..|s| - 1], n, c);
      assert s[..|s| - 1][..n] == s[..n];
    } else {
      assert s[..n] == s;
    }
  }

  /** With a budget of b >= 0 for letter c, the marks "existSomewhereElse" on c
    * among the first n positions number min(unmatched c's, b). */
  lemma {:induction false} PresentCount(secret: string, word: string, c: char, reserve: bool, n: nat)
    requires n <= |word|
    requires Budget(secret, word, c, reserve) >= 0
    ensures var r := seq(|word|, i requires 0 <= i < |word| => GradeAt(secret, word, i, reserve));
      Marked(word, r, c, ExistSomewhereElse, n)
        == Min(Unmatched(secret, word, c, n), Budget(secret, word, c, reserve))
    decreases n
  {
    if n > 0 {
      PresentCount(secret, word, c, reserve, n - 1);
    }
  }

  /** The exact matches are exactly the positions marked "correct". */
  lemma {:induction false} CorrectCount(secret: string, word: string, c: char, reserve: bool, n: nat)
    requires n <= |word|
    ensures var r := seq(|word|, i requires 0 <= i < |word| => GradeAt(secret, word, i, reserve));
      Marked(word, r, c, Correct, n) == Exact(secret, word, c, n)
    decreases n
  {
    if n > 0 {
      CorrectCount(secret, word, c, reserve, n - 1);
    }
  }

  /** Every occurrence of c in the guess is either an exact match or not. */
  lemma {:induction false} SplitOccurrences(secret: string, word: string, c: char, n: nat)
    requires n <= |word|
    ensures Exact(secret, word, c, n) + Unmatched(secret, word, c, n) == Occurrences(word[..n], c)
    decreases n
  {
    if n > 0 {
      SplitOccurrences(secret, word, c, n - 1);
      assert word[..n][..n - 1] == word[..n - 1];
    }
  }

  /** As written, "existSomewhereElse" marks on a letter number the unmatched
    * occurrences of it in the guess, capped by its count in the secret;
    * "correct" marks do not reduce that allowance. */
  lemma OnePassPresentMarks(secret: string, word: string, c: char)
    ensures Marked(word, Feedback(secret, word), c, ExistSomewhereElse, |word|)
      == Min(Unmatched(secret, word, c, |word|), Occurrences(secret, c))
    ensures Marked(word, Feedback(secret, word), c, ExistSomewhereElse, |word|) <= Occurrences(secret, c)
    ensures Marked(word, Feedback(secret, word), c, Correct, |word|) == Exact(secret, word, c, |word|)
  {
    PresentCount(secret, word, c, false, |word|);
    CorrectCount(secret, word, c, false, |word|);
  }

  /** Under the two-pass rule a letter is credited (correct or elsewhere) as
    * many times as it occurs in both words: min of the two counts. */
  lemma TwoPassCredits(secret: string, word: string, c: char)
    ensures Marked(word, TwoPassFeedback(secret, word), c, Correct, |word|)
      + Marked(word, TwoPassFeedback(secret, word), c, ExistSomewhereElse, |word|)
      == Min(Occurrences(word, c), Occurrences(secret, c))
  {
    ExactWithinSecret(secret, word, c, |word|);
    OccurrencesPrefix(secret, Min(|word|, |secret|), c);
    PresentCount(secret, word, c, true, |word|);
    CorrectCount(secret, word, c, true, |word|);
    SplitOccurrences(secret, word, c, |word|);
    assert word[..|word|] == word;
  }

  /** A letter that occurs once in the guess, at a non-matching position, has
    * no exact matches. */
  lemma {:induction false} NoExactOfLoneLetter(secret: string, word: string, i: nat, n: nat)
    requires i < |word| && n <= |word|
    requires !IsExact(secret, word, i)
    requires forall j :: 0 <= j < |word| && j != i ==> word[j] != word[i]
    ensures Exact(secret, word, word[i], n) == 0
    decreases n
  {
    if n > 0 {
      NoExactOfLoneLetter(secret, word, i, n - 1);
    }
  }

  /** On a guess without repeated letters the one-pass and two-pass rules agree. */
  lemma DistinctLettersAgree(secret: string, word: string)
    requires forall i, j :: 0 <= i < j < |word| ==> word[i] != word[j]
    ensures Feedback(secret, word) == TwoPassFeedback(secret, word)
  {
    forall i | 0 <= i < |word| && !IsExact(secret, word, i)
      ensures Budget(secret, word, word[i], false) == Budget(secret, word, word[i], true)
    {
      NoExactOfLoneLetter(secret, word, i, |word|);
    }
  }

  function Indicator(b: bool): nat
  {
    if b then 1 else 0
  }

  /** Occurrences in a five-letter word, position by position. */
  lemma FiveOccurrences(s: string, c: char)
    requires |s| == 5
    ensures Occurrences(s, c) == Indicator(s[0] == c) + Indicator(s[1] == c)
      + Indicator(s[2] == c) + Indicator(s[3] == c) + Indicator(s[4] == c)
  {
    assert Occurrences(s[..1], c) == Indicator(s[0] == c) by {
      assert s[..1][..0] == [];
    }
    assert s[..2][..1] == s[..1];
    assert Occurrences(s[..2], c) == Occurrences(s[..1], c) + Indicator(s[1] == c);
    assert s[..3][..2] == s[..2];
    assert Occurrences(s[..3], c) == Occurrences(s[..2], c) + Indicator(s[2] == c);
    assert s[..4][..3] == s[..3];
    assert Occurrences(s[..4], c) == Occurrences(s[..3], c) + Indicator(s[3] == c);
    assert s[..4] == s[..|s| - 1];
  }

  /** The rules can part only at a non-matching position whose letter is
    * matched exactly somewhere else in the guess. */
  lemma RulesDifferOnlyAt(secret: string, word: string, i: nat)
    requires i < |word|
    ensures Feedback(secret, word)[i] != TwoPassFeedback(secret, word)[i] ==>
      !IsExact(secret, word, i) && Exact(secret, word, word[i], |word|) > 0
  {
  }

  /** Where the rules part: against "abcde", the second 'a' of "aaxxx" is still
    * credited as present elsewhere, though the only 'a' is already matched, so
    * the letter 'a' is credited twice while the secret holds it once. */
  lemma RepeatedMatchedLetter()
    ensures Feedback("abcde", "aaxxx") == [Correct, ExistSomewhereElse, Absent, Absent, Absent]
    ensures TwoPassFeedback("abcde", "aaxxx") == [Correct, Absent, Absent, Absent, Absent]
    ensures Marked("aaxxx", Feedback("abcde", "aaxxx"), 'a', Correct, 5)
      + Marked("aaxxx", Feedback("abcde", "aaxxx"), 'a', ExistSomewhereElse, 5)
      > Occurrences("abcde", 'a')
  {
    var secret, word := "abcde", "aaxxx";
    FiveOccurrences(secret, 'a');
    FiveOccurrences(secret, 'x');
    assert Exact(secret, word, 'a', 5) == 1;
    assert Exact(secret, word, 'x', 5) == 0;
  }

  /** "RARAR" against "ARARA": no position matches, both 'R's of the secret are
    * credited to the first two 'R's of the guess and the last 'R' is absent. */
  lemma NoMatchDuplicates()
    ensures Feedback("ARARA", "RARAR") == [ExistSomewhereElse, ExistSomewhereElse, ExistSomewhereElse, ExistSomewhereElse, Absent]
  {
    var secret, word := "ARARA", "RARAR";
    FiveOccurrences(secret, 'R');
    FiveOccurrences(secret, 'A');
  }

  /** A guess equal to the secret is "correct" everywhere. */
  lemma SolvedAllCorrect(secret: string)
    ensures Feedback(secret, secret) == seq(|secret|, _ => Correct)
  {
  }
}
