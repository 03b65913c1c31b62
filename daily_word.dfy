// The word of the day: the date string "YYYY-MM-DD" is Base 64 encoded, the
// character codes of that text are summed, and the sum modulo the number of
// answers picks the answer. The date string is a parameter here, in place of
// the wall-clock read the hook performs.
module DailyWord {
  import opened Wrappers
  import opened Base64

  /** Every character is a 7-bit ASCII code, as in an ISO 8601 date string. */
  predicate IsAscii(s: string)
  {
    forall i :: 0 <= i < |s| ==> s[i] as int < 128
  }

  /** The bytes of an ASCII string: one byte per character, equal to its code. */
  function AsciiBytes(s: string): (b: seq<byte>)
    requires IsAscii(s)
    ensures |b| == |s|
    ensures forall i :: 0 <= i < |s| ==> b[i] as int == s[i] as int
  {
    seq(|s|, i requires 0 <= i < |s| => s[i] as int as byte)
  }

  /** The Base 64 text of the date string. */
  function DaySeed(date: string): (seed: string)
    requires IsAscii(date)
    ensures |seed| == 4 * ((|date| + 2) / 3)
    ensures Decode(seed) == Some(AsciiBytes(date))
  {
    DecodeEncode(AsciiBytes(date));
    Encode(AsciiBytes(date))
  }

  /** The seed is the only text that decodes to the date string's bytes, so
    * the characters whose codes are summed are fixed by the date. */
  lemma SeedUnique(date: string, t: string)
    requires IsAscii(date) && Decode(t) == Some(AsciiBytes(date))
    ensures t == DaySeed(date)
  {
    EncodeDecode(t, AsciiBytes(date));
  }

  /** Left-to-right sum of the character codes of `s`, starting from 0. On
    * Base 64 text each character ('z' being the largest) adds at most 122. */
  function CharCodeSum(s: string): (sum: nat)
    ensures (forall i :: 0 <= i < |s| ==> IsAlphabetChar(s[i]) || s[i] == '=') ==> sum <= 122 * |s|
  {
    if |s| == 0 then 0 else CharCodeSum(s[..|s| - 1]) + s[|s| - 1] as int
  }

  /** The sum of a concatenation is the sum of its parts. */
  lemma {:induction false} CharCodeSumAppend(s: string, t: string)
    ensures CharCodeSum(s + t) == CharCodeSum(s) + CharCodeSum(t)
    decreases |t|
  {
    if |t| == 0 {
      assert s + t == s;
    } else {
      assert (s + t)[..|s + t| - 1] == s + t[..|t| - 1];
      CharCodeSumAppend(s, t[..|t| - 1]);
    }
  }

  /** The index into `answers`: the seed's code sum modulo the list length.
    * The sum is at most 122 per seed character, far below 2^53, so the
    * hook's floating-point sum and modulo are exact. */
  function DayIndex(date: string, count: nat): (k: nat)
    requires IsAscii(date) && count > 0
    ensures k < count
    ensures CharCodeSum(DaySeed(date)) <= 122 * (4 * ((|date| + 2) / 3))
  {
    CharCodeSum(DaySeed(date)) % count
  }

  /** The word of the day, or None where the hook would read `answers[NaN]`
    * (an empty answer list makes the modulo NaN and the word undefined). */
  function TodaysWord(date: string, answers: seq<string>): (w: Option<string>)
    requires IsAscii(date)
    ensures w.None? <==> |answers| == 0
    ensures w.Some? ==> w.value in answers
  {
    if |answers| == 0 then None else Some(answers[DayIndex(date, |answers|)])
  }

  lemma NewYear2025Bytes()
    ensures IsAscii("2025-01-01")
    ensures AsciiBytes("2025-01-01") == [50, 48, 50, 53, 45, 48, 49, 45, 48, 49]
  {
  }

  lemma NewYear2025Encoding()
    ensures Encode([50, 48, 50, 53, 45, 48, 49, 45, 48, 49]) == "MjAyNS0wMS0wMQ=="
  {
    var b: seq<byte> := [50, 48, 50, 53, 45, 48, 49, 45, 48, 49];
    assert EncodeTriple(50, 48, 50) == "MjAy";
    assert EncodeTriple(53, 45, 48) == "NS0w";
    assert EncodeTriple(49, 45, 48) == "MS0w";
    assert EncodeSingle(49) == "MQ==";
    assert b[3..][3..][3..] == [49];
  }

  lemma QuadSum(q: string)
    requires |q| == 4
    ensures CharCodeSum(q) == q[0] as int + q[1] as int + q[2] as int + q[3] as int
  {
    assert CharCodeSum(q[..1]) == q[0] as int by {
      assert q[..1][..0] == [];
    }
    assert q[..2][..1] == q[..1];
    assert CharCodeSum(q[..2]) == CharCodeSum(q[..1]) + q[1] as int;
    assert q[..3][..2] == q[..2];
    assert CharCodeSum(q[..3]) == CharCodeSum(q[..2]) + q[2] as int;
    assert q[..3] == q[..|q| - 1];
  }

  lemma NewYear2025Sum()
    ensures CharCodeSum("MjAyNS0wMS0wMQ==") == 1304
  {
    QuadSum("MjAy");
    QuadSum("NS0w");
    QuadSum("MS0w");
    QuadSum("MQ==");
    CharCodeSumAppend("MjAy", "NS0w");
    CharCodeSumAppend("MjAyNS0w", "MS0w");
    CharCodeSumAppend("MjAyNS0wMS0w", "MQ==");
    assert "MjAy" + "NS0w" == "MjAyNS0w";
    assert "MjAyNS0w" + "MS0w" == "MjAyNS0wMS0w";
    assert "MjAyNS0wMS0w" + "MQ==" == "MjAyNS0wMS0wMQ==";
  }

  /** The day's seed for "2025-01-01" is "MjAyNS0wMS0wMQ==", whose codes sum
    * to 1304. */
  lemma NewYear2025()
    ensures IsAscii("2025-01-01")
    ensures DaySeed("2025-01-01") == "MjAyNS0wMS0wMQ=="
    ensures CharCodeSum(DaySeed("2025-01-01")) == 1304
  {
    NewYear2025Bytes();
    NewYear2025Encoding();
    NewYear2025Sum();
  }
}
