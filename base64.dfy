// Base 64 encoding with padding, as in section 4 of RFC 4648. The daily seed is
// the Base 64 text of the date string's bytes.
module Base64 {
  import opened Wrappers

  newtype byte = x: int | 0 <= x < 256

  /** A 6-bit value, the unit one Base 64 character carries. */
  type sextet = x: int | 0 <= x < 64

  /** The alphabet of Table 1 in section 4 of RFC 4648: A-Z, a-z, 0-9, '+', '/'. */
  function CharOf(v: sextet): (c: char)
    ensures ValueOf(c) == Some(v)
  {
    if v < 26 then ('A' as int + v) as char
    else if v < 52 then ('a' as int + (v - 26)) as char
    else if v < 62 then ('0' as int + (v - 52)) as char
    else if v == 62 then '+'
    else '/'
  }

  /** Inverse of the alphabet table; None for '=' and every character outside it. */
  function ValueOf(c: char): (r: Option<sextet>)
  {
    if 'A' <= c <= 'Z' then Some(c as int - 'A' as int)
    else if 'a' <= c <= 'z' then Some(c as int - 'a' as int + 26)
    else if '0' <= c <= '9' then Some(c as int - '0' as int + 52)
    else if c == '+' then Some(62)
    else if c == '/' then Some(63)
    else None
  }

  predicate IsAlphabetChar(c: char)
  {
    ValueOf(c).Some?
  }

  /** Three bytes (24 bits) become four characters. */
  function EncodeTriple(b0: byte, b1: byte, b2: byte): string
  {
    [CharOf(b0 as int / 4),
     CharOf((b0 as int % 4) * 16 + b1 as int / 16),
     CharOf((b1 as int % 16) * 4 + b2 as int / 64),
     CharOf(b2 as int % 64)]
  }

  /** A final group of one byte: two characters and "==". */
  function EncodeSingle(b0: byte): string
  {
    [CharOf(b0 as int / 4), CharOf((b0 as int % 4) * 16), '=', '=']
  }

  /** A final group of two bytes: three characters and "=". */
  function EncodePair(b0: byte, b1: byte): string
  {
    [CharOf(b0 as int / 4),
     CharOf((b0 as int % 4) * 16 + b1 as int / 16),
     CharOf((b1 as int % 16) * 4),
     '=']
  }

  /** Base 64 text of `b`, padded with '=' to a multiple of four characters. */
  function Encode(b: seq<byte>): (r: string)
    ensures |r| == 4 * ((|b| + 2) / 3)
    ensures forall i :: 0 <= i < |r| ==> IsAlphabetChar(r[i]) || r[i] == '='
    decreases |b|
  {
    if |b| == 0 then []
    else if |b| == 1 then EncodeSingle(b[0])
    else if |b| == 2 then EncodePair(b[0], b[1])
    else EncodeTriple(b[0], b[1], b[2]) + Encode(b[3..])
  }

  /** Decodes one group of four characters; `last` allows padding in it. The
    * bits that padding leaves over must be zero (section 3.5 of RFC 4648), so
    * each byte string has exactly one encoding. */
  function DecodeQuad(q: string, last: bool): Option<seq<byte>>
    requires |q| == 4
  {
    match (ValueOf(q[0]), ValueOf(q[1]), ValueOf(q[2]), ValueOf(q[3]))
    case (Some(v0), Some(v1), Some(v2), Some(v3)) =>
      Some([(v0 * 4 + v1 / 16) as byte,
            ((v1 % 16) * 16 + v2 / 4) as byte,
            ((v2 % 4) * 64 + v3) as byte])
    case (Some(v0), Some(v1), Some(v2), None) =>
      if last && q[3] == '=' && v2 % 4 == 0 then
        Some([(v0 * 4 + v1 / 16) as byte, ((v1 % 16) * 16 + v2 / 4) as byte])
      else None
    case (Some(v0), Some(v1), None, None) =>
      if last && q[2] == '=' && q[3] == '=' && v1 % 16 == 0 then Some([(v0 * 4 + v1 / 16) as byte])
      else None
    case _ => None
  }

  /** Base 64 decoding: the text must consist of whole groups of four characters. */
  function Decode(s: string): Option<seq<byte>>
    decreases |s|
  {
    if |s| == 0 then Some([])
    else if |s| < 4 then None
    else
      match (DecodeQuad(s[..4], |s| == 4), Decode(s[4..]))
      case (Some(head), Some(tail)) => Some(head + tail)
      case _ => None
  }

  lemma TripleRoundTrip(b0: byte, b1: byte, b2: byte)
    ensures DecodeQuad(EncodeTriple(b0, b1, b2), false) == Some([b0, b1, b2])
    ensures DecodeQuad(EncodeTriple(b0, b1, b2), true) == Some([b0, b1, b2])
  {
    var x0, x1, x2 := b0 as int, b1 as int, b2 as int;
    var w1, w2 := (x0 % 4) * 16 + x1 / 16, (x1 % 16) * 4 + x2 / 64;
    assert w1 / 16 == x0 % 4 && w1 % 16 == x1 / 16;
    assert w2 / 4 == x1 % 16 && w2 % 4 == x2 / 64;
    assert (x0 / 4) * 4 + x0 % 4 == x0;
    assert (x1 / 16) * 16 + x1 % 16 == x1;
    assert (x2 / 64) * 64 + x2 % 64 == x2;
  }

  lemma PairRoundTrip(b0: byte, b1: byte)
    ensures DecodeQuad(EncodePair(b0, b1), true) == Some([b0, b1])
  {
    var q := EncodePair(b0, b1);
    assert ValueOf(q[3]) == None;
  }

  lemma SingleRoundTrip(b0: byte)
    ensures DecodeQuad(EncodeSingle(b0), true) == Some([b0])
  {
    var q := EncodeSingle(b0);
    assert ValueOf(q[2]) == None && ValueOf(q[3]) == None;
  }

  /** A text of one group decodes as that group with padding allowed. */
  lemma DecodeLastQuad(q: string)
    requires |q| == 4
    ensures Decode(q) == DecodeQuad(q, true)
  {
    assert q[..4] == q && q[4..] == [];
    match DecodeQuad(q, true)
    case Some(head) => assert head + [] == head;
    case None =>
  }

  /** Decoding undoes encoding for every byte string. */
  lemma {:induction false} DecodeEncode(b: seq<byte>)
    ensures Decode(Encode(b)) == Some(b)
    decreases |b|
  {
    if |b| == 0 {
    } else if |b| == 1 {
      DecodeLastQuad(EncodeSingle(b[0]));
      SingleRoundTrip(b[0]);
      assert [b[0]] == b;
    } else if |b| == 2 {
      DecodeLastQuad(EncodePair(b[0], b[1]));
      PairRoundTrip(b[0], b[1]);
      assert [b[0], b[1]] == b;
    } else {
      var s := Encode(b);
      var tail := Encode(b[3..]);
      assert s[..4] == EncodeTriple(b[0], b[1], b[2]);
      assert s[4..] == tail;
      TripleRoundTrip(b[0], b[1], b[2]);
      DecodeEncode(b[3..]);
      assert [b[0], b[1], b[2]] + b[3..] == b;
    }
  }

  /** The alphabet table read backwards gives the character back. */
  lemma CharOfValue(c: char, v: sextet)
    requires ValueOf(c) == Some(v)
    ensures CharOf(v) == c
  {
  }

  /** Re-encoding the bytes of a full group gives its four values back. */
  lemma FullGroupValues(v0: sextet, v1: sextet, v2: sextet, v3: sextet)
    ensures EncodeTriple((v0 * 4 + v1 / 16) as byte, ((v1 % 16) * 16 + v2 / 4) as byte, ((v2 % 4) * 64 + v3) as byte)
      == [CharOf(v0), CharOf(v1), CharOf(v2), CharOf(v3)]
  {
    var b0, b1, b2 := v0 * 4 + v1 / 16, (v1 % 16) * 16 + v2 / 4, (v2 % 4) * 64 + v3;
    assert b0 / 4 == v0 && b0 % 4 == v1 / 16;
    assert (v1 / 16) * 16 + v1 % 16 == v1;
    assert b1 / 16 == v1 % 16 && b1 % 16 == v2 / 4;
    assert b2 / 64 == v2 % 4 && b2 % 64 == v3;
    assert (v2 / 4) * 4 + v2 % 4 == v2;
  }

  /** The same for a group ending in "=", whose leftover bits are zero. */
  lemma PairGroupValues(v0: sextet, v1: sextet, v2: sextet)
    requires v2 % 4 == 0
    ensures EncodePair((v0 * 4 + v1 / 16) as byte, ((v1 % 16) * 16 + v2 / 4) as byte)
      == [CharOf(v0), CharOf(v1), CharOf(v2), '=']
  {
    var b0, b1 := v0 * 4 + v1 / 16, (v1 % 16) * 16 + v2 / 4;
    assert b0 / 4 == v0 && b0 % 4 == v1 / 16;
    assert b1 / 16 == v1 % 16 && b1 % 16 == v2 / 4;
    assert (v2 / 4) * 4 == v2;
  }

  /** The same for a group ending in "==", whose leftover bits are zero. */
  lemma SingleGroupValues(v0: sextet, v1: sextet)
    requires v1 % 16 == 0
    ensures EncodeSingle((v0 * 4 + v1 / 16) as byte) == [CharOf(v0), CharOf(v1), '=', '=']
  {
  }

  lemma FullQuadInverse(q: string, last: bool, h: seq<byte>)
    requires |q| == 4 && DecodeQuad(q, last) == Some(h)
    requires ValueOf(q[3]).Some?
    ensures |h| == 3 && q == EncodeTriple(h[0], h[1], h[2])
  {
    var v0, v1, v2, v3 := ValueOf(q[0]).value, ValueOf(q[1]).value, ValueOf(q[2]).value, ValueOf(q[3]).value;
    CharOfValue(q[0], v0);
    CharOfValue(q[1], v1);
    CharOfValue(q[2], v2);
    CharOfValue(q[3], v3);
    FullGroupValues(v0, v1, v2, v3);
    assert q == [q[0], q[1], q[2], q[3]];
  }

  lemma PairQuadInverse(q: string, last: bool, h: seq<byte>)
    requires |q| == 4 && DecodeQuad(q, last) == Some(h)
    requires ValueOf(q[2]).Some? && ValueOf(q[3]).None?
    ensures last && |h| == 2 && q == EncodePair(h[0], h[1])
  {
    var v0, v1, v2 := ValueOf(q[0]).value, ValueOf(q[1]).value, ValueOf(q[2]).value;
    CharOfValue(q[0], v0);
    CharOfValue(q[1], v1);
    CharOfValue(q[2], v2);
    PairGroupValues(v0, v1, v2);
    assert q == [q[0], q[1], q[2], q[3]];
  }

  lemma SingleQuadInverse(q: string, last: bool, h: seq<byte>)
    requires |q| == 4 && DecodeQuad(q, last) == Some(h)
    requires ValueOf(q[2]).None?
    ensures last && |h| == 1 && q == EncodeSingle(h[0])
  {
    var v0, v1 := ValueOf(q[0]).value, ValueOf(q[1]).value;
    CharOfValue(q[0], v0);
    CharOfValue(q[1], v1);
    SingleGroupValues(v0, v1);
    assert q == [q[0], q[1], q[2], q[3]];
  }

  /** A group that decodes is the encoding of the bytes it decodes to. */
  lemma QuadInverse(q: string, last: bool, h: seq<byte>)
    requires |q| == 4 && DecodeQuad(q, last) == Some(h)
    ensures 1 <= |h| <= 3
    ensures |h| < 3 ==> last
    ensures |h| == 3 ==> q == EncodeTriple(h[0], h[1], h[2])
    ensures |h| == 2 ==> q == EncodePair(h[0], h[1])
    ensures |h| == 1 ==> q == EncodeSingle(h[0])
  {
    if ValueOf(q[2]).None? {
      SingleQuadInverse(q, last, h);
    } else if ValueOf(q[3]).None? {
      PairQuadInverse(q, last, h);
    } else {
      FullQuadInverse(q, last, h);
    }
  }

  /** Encoding undoes decoding: a text that decodes is the encoding of its
    * bytes, so no other text decodes to the same bytes. */
  lemma {:induction false} EncodeDecode(s: string, b: seq<byte>)
    requires Decode(s) == Some(b)
    ensures s == Encode(b)
    decreases |s|
  {
    if |s| > 0 {
      var q, rest := s[..4], s[4..];
      var head := DecodeQuad(q, |s| == 4).value;
      var tail := Decode(rest).value;
      assert b == head + tail;
      QuadInverse(q, |s| == 4, head);
      EncodeDecode(rest, tail);
      assert s == q + rest;
      if |s| == 4 {
        assert tail == [] && b == head;
        assert Encode(b) == q;
      } else {
        assert |head| == 3;
        assert b[..3] == head && b[3..] == tail;
      }
    }
  }

  /** "MR==" carries a set bit in its padding, so it is not a decoding of "1". */
  lemma NonZeroPadBitsRejected()
    ensures Decode("MR==") == None
    ensures Decode("MQ==") == Some([49])
  {
    DecodeLastQuad("MR==");
    DecodeLastQuad("MQ==");
  }
}
