# Termo game hook, modelled in Dafny

This project models the game-simulation hook of termobot, a helper for the
Portuguese daily five-letter word game Termo. The hook does three things:

- It picks the day's secret word. It Base 64 encodes the `YYYY-MM-DD` date
  string and sums the character codes of that text. The sum modulo the number
  of answers indexes the answer list.
- It grades a guess against the secret and appends the guess to the log.
  Each position gets a status: `correct`, `existSomewhereElse` or `absent`.
- It maps each status to a colour class.

Modules:

- `Wrappers` (`wrappers.dfy`): `Option`.
- `Base64` (`base64.dfy`): Base 64 with padding, as in section 4 of RFC 4648.
  It has an encoder, a strict decoder and round-trip lemmas in both directions.
- `DailyWord` (`daily_word.dfy`): the seed, the code sum, the index and the
  day's word. These are pure functions of a date string and the answer list.
- `Grading` (`grading.dfy`): the `LetterStatus` enumeration and the statuses
  the hook computes, given in closed form. It also has the counting lemmas and
  the two-pass rule as a reference.
- `TermoGame` (`termo_game.dfy`): the `TermoGuess` record and the class
  `Game`. The class holds the day's word and the guess log. It has the
  imperative `AddTermoGuess`, the letter-count table `CountLetters` and
  `GetLetterColor`.

## How the hook grades a guess

The hook makes one left-to-right pass over a table of the secret's letter
counts. An exact match is `correct` and does not take from the table. A
non-matching letter whose count is still above zero is `existSomewhereElse`
and takes one from the count. Every other position stays `absent`.

`Grading.Feedback` states the result in closed form. A non-matching position
`i` that holds letter `c` is `existSomewhereElse` exactly when fewer than
`Occurrences(secret, c)` earlier positions hold `c` without matching.
`TermoGame.Game.AddTermoGuess` runs the loop and is proved equal to this
closed form.

The usual rule of the game grades exact matches first. Each exact match uses
up one occurrence of its letter. The code does not do this, and the model
follows the code. The two rules can differ only at a non-matching position
whose letter is matched exactly elsewhere in the guess
(`Grading.RulesDifferOnlyAt`). For example, against `abcde` the guess `aaxxx`
gets `correct, existSomewhereElse, ...` (`Grading.RepeatedMatchedLetter`). On
a guess with no repeated letters the two rules agree
(`Grading.DistinctLettersAgree`).

## Model

| member | source | states |
|---|---|---|
| `Grading.Occurrences` | hooks/useTermoGame.tsx:26-29 | the count a letter gets in the table is positive exactly when the letter occurs in the word, and never exceeds the word's length |
| `Grading.Feedback` | hooks/useTermoGame.tsx:30-42 | one status per letter of the guess; `correct` exactly where the letters match (a shorter secret matches nowhere past its end); `existSomewhereElse` only at a non-matching position whose letter occurs in the secret; `trueAbsent` never produced |
| `Grading.OnePassPresentMarks` | hooks/useTermoGame.tsx:26-40 | for each letter, the `existSomewhereElse` marks number min(unmatched occurrences in the guess, occurrences in the secret), so never more than the secret holds; the `correct` marks are the exact matches and do not reduce that allowance |
| `Grading.PresentCount` | hooks/useTermoGame.tsx:37-40 | among the first n positions, the `existSomewhereElse` marks on a letter number min(its unmatched occurrences so far, its allowance), for the one-pass allowance (its count in the secret) and the two-pass one (that count less the exact matches) |
| `Grading.CorrectCount` | hooks/useTermoGame.tsx:34-36 | the `correct` marks on a letter among the first n positions are exactly its exact matches there |
| `Grading.RulesDifferOnlyAt` | hooks/useTermoGame.tsx:34-41 | a position where the code's status differs from the two-pass rule's is a non-match whose letter has an exact match elsewhere in the guess |
| `Grading.RepeatedMatchedLetter` | hooks/useTermoGame.tsx:34-41 | secret `abcde`, guess `aaxxx` gives `correct, existSomewhereElse, absent, absent, absent`; `a` is credited twice though the secret holds it once, where the two-pass rule gives `correct, absent, ...` |
| `Grading.NoMatchDuplicates` | hooks/useTermoGame.tsx:34-41 | secret `ARARA`, guess `RARAR` gives `existSomewhereElse` four times, then `absent` for the third `R` |
| `Grading.DistinctLettersAgree` | hooks/useTermoGame.tsx:34-41 | on a guess with no repeated letter, the statuses equal those of the two-pass rule |
| `Grading.TwoPassFeedback` | hooks/useTermoGame.tsx:34-41 | the reference rule that the one-pass grading is compared with: one status per letter, `correct` exactly at the matches, never `trueAbsent` |
| `Grading.TwoPassCredits` | hooks/useTermoGame.tsx:34-41 | under the reference rule, a letter's `correct` plus `existSomewhereElse` marks equal min(its count in the guess, its count in the secret) |
| `Grading.SolvedAllCorrect` | hooks/useTermoGame.tsx:34-36 | a guess equal to the secret is `correct` at every position |
| `TermoGame.CountLetters` | hooks/useTermoGame.tsx:26-29 | the table has a key for exactly the letters of the word, each mapped to its number of occurrences |
| `TermoGame.Game.AddTermoGuess` | hooks/useTermoGame.tsx:25-44 | the log grows by exactly one entry, earlier entries are unchanged, and the new entry holds the argument and `Feedback(todaysWord, word)`; the loop keeps unvisited positions `absent` and each letter's count equal to its occurrences less the `existSomewhereElse` marks so far |
| `TermoGame.Game.constructor` | hooks/useTermoGame.tsx:14-23 | the day's word is the answer at `DayIndex` for the date and the number of answers, so one of the answers, and the log starts empty |
| `TermoGame.GetLetterColor` | hooks/useTermoGame.tsx:46-55 | green exactly for `correct`, yellow exactly for `existSomewhereElse`, one gray class exactly for `absent` and `trueAbsent` |
| `Base64.CharOf` | hooks/useTermoGame.tsx:14-16 | each 6-bit value maps to a character of the RFC 4648 alphabet that decodes back to that value |
| `Base64.Encode` | hooks/useTermoGame.tsx:14-16 | the text has 4 * ceil(n / 3) characters for n bytes, each from the alphabet or `=` |
| `Base64.DecodeEncode` | hooks/useTermoGame.tsx:14-16 | decoding the Base 64 text gives back exactly the original bytes |
| `Base64.EncodeDecode` | hooks/useTermoGame.tsx:14-16 | a text that decodes (padding bits zero, as section 3.5 of RFC 4648 asks) is the encoding of its bytes, so each byte string has exactly one Base 64 text |
| `Base64.NonZeroPadBitsRejected` | hooks/useTermoGame.tsx:14-16 | `MR==` does not decode, because its padding bits are set; `MQ==` decodes to the single byte 49 |
| `DailyWord.AsciiBytes` | hooks/useTermoGame.tsx:14-15 | an ASCII string's bytes: one per character, equal to its code |
| `DailyWord.DaySeed` | hooks/useTermoGame.tsx:14-16 | the seed has 4 * ceil(n / 3) characters and decodes to the date string's bytes |
| `DailyWord.SeedUnique` | hooks/useTermoGame.tsx:14-16 | any text that decodes to the date string's bytes is the seed, so `DaySeed`'s contract fixes the characters whose codes are summed |
| `DailyWord.CharCodeSumAppend` | hooks/useTermoGame.tsx:17-18 | the code sum of a concatenation is the sum of the parts' code sums |
| `DailyWord.CharCodeSum` | hooks/useTermoGame.tsx:17-18 | the left-to-right sum of the character codes, starting from 0; on Base 64 text it is at most 122 per character, which `DayIndex` uses to bound the day's sum; it splits over concatenation (`CharCodeSumAppend`) |
| `DailyWord.DayIndex` | hooks/useTermoGame.tsx:17-19 | the index is in range for any non-empty answer list; the sum it reduces is at most 122 per seed character, far below 2^53, so the hook's floating-point sum and modulo are exact |
| `DailyWord.TodaysWord` | hooks/useTermoGame.tsx:19 | no word exactly when the answer list is empty; otherwise the word is one of the answers |
| `DailyWord.NewYear2025` | hooks/useTermoGame.tsx:14-18 | for `2025-01-01` the seed is `MjAyNS0wMS0wMQ==` and its codes sum to 1304 |

## Left out

- React state plumbing is not modelled: `useState` and the exposed `setTermoGuesses` setter. The log is the field `termoGuesses` of `Game`.
- The wall-clock read `new Date().toISOString().slice(0, 10)` is not modelled. The date string is a parameter. The hook recomputes the day's word on every render, so the word can change at midnight UTC during one session, since `toISOString` gives the UTC date. The model fixes the word when the game is created.
- Base 64 of non-ASCII text is not modelled. `Buffer` would encode such text as UTF-8 first. The date string is required to be ASCII, which the ISO date always is.
- TermoGame.Game.constructor: requires a non-empty answer list. With an empty list the hook's word is `undefined` and `addTermoGuess` fails. `DailyWord.TodaysWord` models that case as `None`.
- TermoGame.Game.AddTermoGuess: the hook pushes an all-`absent` entry first and then overwrites its statuses in place. The model grades into a fresh array and appends the finished entry once. The intermediate log is never observed, because nothing runs between the two steps. Sharing of entry objects between the old log and its copy is not modelled.
- Strings are sequences of Unicode scalar values. JavaScript strings are UTF-16 code units. The two agree on the letters the game uses.
- The word lists in `lib/words` and the solver hook `hooks/useTermoBot` are not part of this model. The candidate filter and the solver session live there.
- Dictionary validation, a six-attempt limit and win or loss are not in this hook, so they are not modelled.
- The rendering components and the accent stripping done by Unicode NFD normalisation are not modelled. They are display and library code.
