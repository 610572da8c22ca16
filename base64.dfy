/** Base64 of RFC 4648 section 4 (standard alphabet, `=` padding), as
    `base64.b64encode` produces it and as a strict `base64.b64decode` reads
    it back. The credential store wraps every encrypted secret in it. */
module Base64 {
  import opened Wrappers

  /** A 6-bit value: the index of one character of the alphabet. */
  type Sextet = v: int | 0 <= v < 64

  /** The character of value `v`: `A`-`Z`, `a`-`z`, `0`-`9`, `+`, `/`. */
  function CharOf(v: Sextet): (c: char)
    ensures c != '='
  {
    if v < 26 then ('A' as int + v) as char
    else if v < 52 then ('a' as int + (v - 26)) as char
    else if v < 62 then ('0' as int + (v - 52)) as char
    else if v == 62 then '+'
    else '/'
  }

  /** The value of an alphabet character, or `None` for any other character
      (padding included). */
  function ValueOf(c: char): (r: Option<Sextet>)
    ensures r.Some? ==> CharOf(r.value) == c
  {
    if 'A' <= c <= 'Z' then Some(c as int - 'A' as int)
    else if 'a' <= c <= 'z' then Some(c as int - 'a' as int + 26)
    else if '0' <= c <= '9' then Some(c as int - '0' as int + 52)
    else if c == '+' then Some(62)
    else if c == '/' then Some(63)
    else None
  }

  /** Every character of the alphabet is read back as its value. */
  lemma ValueOfCharOf(v: Sextet)
    ensures ValueOf(CharOf(v)) == Some(v)
  {
  }

  /** The four 6-bit values of three bytes: 24 bits cut from the top. */
  function Sextet0(b0: Byte): Sextet { b0 / 4 }
  function Sextet1(b0: Byte, b1: Byte): Sextet { (b0 % 4) * 16 + b1 / 16 }
  function Sextet2(b1: Byte, b2: Byte): Sextet { (b1 % 16) * 4 + b2 / 64 }
  function Sextet3(b2: Byte): Sextet { b2 % 64 }

  /** The three bytes of four 6-bit values: the same 24 bits, regrouped. */
  function Byte0(v0: Sextet, v1: Sextet): Byte { v0 * 4 + v1 / 16 }
  function Byte1(v1: Sextet, v2: Sextet): Byte { (v1 % 16) * 16 + v2 / 4 }
  function Byte2(v2: Sextet, v3: Sextet): Byte { (v2 % 4) * 64 + v3 }

  /** Regrouping undoes cutting, byte by byte; a missing byte counts as 0. */
  lemma RegroupByte0(b0: Byte, b1: Byte)
    ensures Byte0(Sextet0(b0), Sextet1(b0, b1)) == b0
  {
    assert Sextet1(b0, b1) / 16 == b0 % 4;
  }

  lemma RegroupByte1(b0: Byte, b1: Byte, b2: Byte)
    ensures Byte1(Sextet1(b0, b1), Sextet2(b1, b2)) == b1
  {
    assert Sextet1(b0, b1) % 16 == b1 / 16;
    assert Sextet2(b1, b2) / 4 == b1 % 16;
  }

  lemma RegroupByte2(b1: Byte, b2: Byte)
    ensures Byte2(Sextet2(b1, b2), Sextet3(b2)) == b2
  {
    assert Sextet2(b1, b2) % 4 == b2 / 64;
  }

  /** Three bytes become four characters. */
  function EncodeGroup(b0: Byte, b1: Byte, b2: Byte): string {
    [CharOf(Sextet0(b0)), CharOf(Sextet1(b0, b1)), CharOf(Sextet2(b1, b2)), CharOf(Sextet3(b2))]
  }

  /** `base64.b64encode`: whole groups of three bytes, then a last group of
      one byte (two characters and `==`) or two bytes (three characters and
      `=`). */
  function Encode(b: seq<Byte>): (s: string)
    ensures |s| == 4 * ((|b| + 2) / 3)
    decreases |b|
  {
    if |b| == 0 then []
    else if |b| == 1 then [CharOf(Sextet0(b[0])), CharOf(Sextet1(b[0], 0)), '=', '=']
    else if |b| == 2 then [CharOf(Sextet0(b[0])), CharOf(Sextet1(b[0], b[1])), CharOf(Sextet2(b[1], 0)), '=']
    else
      assert (|b| + 2) / 3 == (|b[3..]| + 2) / 3 + 1;
      EncodeGroup(b[0], b[1], b[2]) + Encode(b[3..])
  }

  /** Four characters with no padding back to three bytes. */
  function DecodeGroup(c0: char, c1: char, c2: char, c3: char): (r: Option<seq<Byte>>)
    ensures r.Some? ==> |r.value| == 3
  {
    match (ValueOf(c0), ValueOf(c1), ValueOf(c2), ValueOf(c3))
    case (Some(v0), Some(v1), Some(v2), Some(v3)) =>
      Some([Byte0(v0, v1), Byte1(v1, v2), Byte2(v2, v3)])
    case _ => None
  }

  /** The last four characters, which may end in `==` (one byte) or `=` (two
      bytes). */
  function DecodeLast(c0: char, c1: char, c2: char, c3: char): (r: Option<seq<Byte>>)
    ensures r.Some? ==> 1 <= |r.value| <= 3
  {
    if c2 == '=' && c3 == '=' then
      match (ValueOf(c0), ValueOf(c1))
      case (Some(v0), Some(v1)) => Some([Byte0(v0, v1)])
      case _ => None
    else if c3 == '=' then
      match (ValueOf(c0), ValueOf(c1), ValueOf(c2))
      case (Some(v0), Some(v1), Some(v2)) => Some([Byte0(v0, v1), Byte1(v1, v2)])
      case _ => None
    else DecodeGroup(c0, c1, c2, c3)
  }

  /** `base64.b64decode` on well-formed input: the length must be a multiple
      of four, every character must belong to the alphabet, and padding may
      only close the last group. Anything else is rejected. */
  function Decode(s: string): (r: Option<seq<Byte>>)
    ensures |s| % 4 != 0 ==> r.None?
    ensures r.Some? ==> |r.value| <= 3 * (|s| / 4)
    decreases |s|
  {
    if |s| == 0 then Some([])
    else if |s| < 4 then None
    else if |s| == 4 then DecodeLast(s[0], s[1], s[2], s[3])
    else
      match (DecodeGroup(s[0], s[1], s[2], s[3]), Decode(s[4..]))
      case (Some(head), Some(tail)) =>
        assert |s| / 4 == |s[4..]| / 4 + 1;
        Some(head + tail)
      case _ => None
  }

  /** The bytes of one whole group come back from its four characters. */
  lemma DecodeEncodeGroup(b0: Byte, b1: Byte, b2: Byte)
    ensures var s := EncodeGroup(b0, b1, b2); DecodeGroup(s[0], s[1], s[2], s[3]) == Some([b0, b1, b2])
  {
    ValueOfCharOf(Sextet0(b0));
    ValueOfCharOf(Sextet1(b0, b1));
    ValueOfCharOf(Sextet2(b1, b2));
    ValueOfCharOf(Sextet3(b2));
    RegroupByte0(b0, b1);
    RegroupByte1(b0, b1, b2);
    RegroupByte2(b1, b2);
  }

  /** One byte comes back from its two characters and `==`. */
  lemma DecodeEncodeOne(b0: Byte)
    ensures Decode(Encode([b0])) == Some([b0])
  {
    ValueOfCharOf(Sextet0(b0));
    ValueOfCharOf(Sextet1(b0, 0));
    RegroupByte0(b0, 0);
  }

  /** Two bytes come back from their three characters and `=`. */
  lemma DecodeEncodeTwo(b0: Byte, b1: Byte)
    ensures Decode(Encode([b0, b1])) == Some([b0, b1])
  {
    var s := Encode([b0, b1]);
    assert s == [CharOf(Sextet0(b0)), CharOf(Sextet1(b0, b1)), CharOf(Sextet2(b1, 0)), '='];
    ValueOfCharOf(Sextet0(b0));
    ValueOfCharOf(Sextet1(b0, b1));
    ValueOfCharOf(Sextet2(b1, 0));
    RegroupByte0(b0, b1);
    RegroupByte1(b0, b1, 0);
  }

  /** A whole group followed by more text decodes to the group's bytes
      followed by the rest's. */
  lemma DecodeGroupThenRest(b0: Byte, b1: Byte, b2: Byte, rest: string, tail: seq<Byte>)
    requires rest != [] && Decode(rest) == Some(tail)
    ensures Decode(EncodeGroup(b0, b1, b2) + rest) == Some([b0, b1, b2] + tail)
  {
    var s := EncodeGroup(b0, b1, b2) + rest;
    DecodeEncodeGroup(b0, b1, b2);
    assert s[4..] == rest;
  }

  /** A lone whole group has no padding, so it decodes as a whole group. */
  lemma DecodeLoneGroup(b0: Byte, b1: Byte, b2: Byte)
    ensures Decode(EncodeGroup(b0, b1, b2)) == Some([b0, b1, b2])
  {
    DecodeEncodeGroup(b0, b1, b2);
  }

  /** Encoding and then decoding gives the bytes back (RFC 4648 section 4). */
  lemma {:induction false} DecodeEncode(b: seq<Byte>)
    ensures Decode(Encode(b)) == Some(b)
    decreases |b|
  {
    if |b| == 1 {
      assert b == [b[0]];
      DecodeEncodeOne(b[0]);
    } else if |b| == 2 {
      assert b == [b[0], b[1]];
      DecodeEncodeTwo(b[0], b[1]);
    } else if |b| == 3 {
      assert b == [b[0], b[1], b[2]];
      DecodeLoneGroup(b[0], b[1], b[2]);
    } else if |b| > 3 {
      var tail := b[3..];
      assert b == [b[0], b[1], b[2]] + tail;
      DecodeEncode(tail);
      DecodeGroupThenRest(b[0], b[1], b[2], Encode(tail), tail);
    }
  }

  /** Encoding is one-to-one: different byte strings never share an
      envelope. */
  lemma EncodeInjective(a: seq<Byte>, b: seq<Byte>)
    requires Encode(a) == Encode(b)
    ensures a == b
  {
    DecodeEncode(a);
    DecodeEncode(b);
  }
}
