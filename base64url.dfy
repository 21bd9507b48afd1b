/** Base 64 encoding with the URL- and filename-safe alphabet of section 5 of RFC 4648,
    with `=` padding: the encoding the `base64` crate's `URL_SAFE` engine performs. */
module Base64Url {

  /** A byte, as the unsigned 8-bit value the encoder reads. */
  newtype byte = x: int | 0 <= x < 256

  /** A 6-bit value: the index of a letter in the alphabet. */
  type sextet = x: int | 0 <= x < 64

  /** The character for a 6-bit value: `A`-`Z`, `a`-`z`, `0`-`9`, then `-` and `_`. */
  function Letter(v: sextet): char {
    if v < 26 then ('A' as int + v) as char
    else if v < 52 then ('a' as int + (v - 26)) as char
    else if v < 62 then ('0' as int + (v - 52)) as char
    else if v == 62 then '-'
    else '_'
  }

  /** Membership in the 64-letter alphabet (the padding `=` is not a letter). */
  predicate IsLetter(c: char) {
    ('A' <= c <= 'Z') || ('a' <= c <= 'z') || ('0' <= c <= '9') || c == '-' || c == '_'
  }

  /** The 6-bit value of a letter; the inverse of `Letter`. */
  function LetterValue(c: char): (v: sextet)
    requires IsLetter(c)
    ensures Letter(v) == c
  {
    if 'A' <= c <= 'Z' then c as int - 'A' as int
    else if 'a' <= c <= 'z' then c as int - 'a' as int + 26
    else if '0' <= c <= '9' then c as int - '0' as int + 52
    else if c == '-' then 62
    else 63
  }

  /** Every 6-bit value is written as a letter, and a different value as a different letter. */
  lemma LetterIsLetter(v: sextet)
    ensures IsLetter(Letter(v)) && LetterValue(Letter(v)) == v
  {
  }

  /** The four letters for the 24 bits of three bytes, most significant sextet first. */
  function Quad(b0: byte, b1: byte, b2: byte): seq<char> {
    [ Letter(b0 as int / 4),
      Letter(b0 as int % 4 * 16 + b1 as int / 16),
      Letter(b1 as int % 16 * 4 + b2 as int / 64),
      Letter(b2 as int % 64) ]
  }

  /** The padded encoding: three bytes become four letters; a final single byte becomes two
      letters and `==`, a final pair of bytes three letters and `=`. */
  function Encode(b: seq<byte>): seq<char>
    decreases |b|
  {
    if |b| == 0 then []
    else if |b| == 1 then Quad(b[0], 0, 0)[..2] + "=="
    else if |b| == 2 then Quad(b[0], b[1], 0)[..3] + "="
    else Quad(b[0], b[1], b[2]) + Encode(b[3..])
  }

  /** The three bytes whose 24 bits four letters carry. */
  function Unquad(c0: char, c1: char, c2: char, c3: char): seq<byte>
    requires IsLetter(c0) && IsLetter(c1) && IsLetter(c2) && IsLetter(c3)
  {
    var v0, v1, v2, v3 := LetterValue(c0), LetterValue(c1), LetterValue(c2), LetterValue(c3);
    [(v0 * 4 + v1 / 16) as byte, (v1 % 16 * 16 + v2 / 4) as byte, (v2 % 4 * 64 + v3) as byte]
  }

  /** A padded encoding of bytes: whole groups of four letters, where only the last group may
      end in `=` or `==`. */
  predicate WellFormed(s: seq<char>)
    decreases |s|
  {
    if |s| == 0 then true
    else if |s| < 4 then false
    else if |s| == 4 then
      IsLetter(s[0]) && IsLetter(s[1]) &&
      ((s[2] == '=' && s[3] == '=') || (IsLetter(s[2]) && (s[3] == '=' || IsLetter(s[3]))))
    else
      IsLetter(s[0]) && IsLetter(s[1]) && IsLetter(s[2]) && IsLetter(s[3]) && WellFormed(s[4..])
  }

  /** Decoding of a padded encoding; the partner of `Encode`, used to show it loses nothing. */
  function Decode(s: seq<char>): seq<byte>
    requires WellFormed(s)
    decreases |s|
  {
    if |s| == 0 then []
    else if |s| == 4 && s[2] == '=' then Unquad(s[0], s[1], 'A', 'A')[..1]
    else if |s| == 4 && s[3] == '=' then Unquad(s[0], s[1], s[2], 'A')[..2]
    else Unquad(s[0], s[1], s[2], s[3]) + Decode(s[4..])
  }

  lemma QuadLetters(b0: byte, b1: byte, b2: byte)
    ensures var q := Quad(b0, b1, b2);
      |q| == 4 && IsLetter(q[0]) && IsLetter(q[1]) && IsLetter(q[2]) && IsLetter(q[3])
  {
    LetterIsLetter(b0 as int / 4);
    LetterIsLetter(b0 as int % 4 * 16 + b1 as int / 16);
    LetterIsLetter(b1 as int % 16 * 4 + b2 as int / 64);
    LetterIsLetter(b2 as int % 64);
  }

  /** Decoding the four letters of a group gives back the group's bytes; so do the first two
      (or three) letters of a group whose last byte (or two) is zero, padded with `A`. */
  lemma QuadRoundTrip(b0: byte, b1: byte, b2: byte)
    ensures var q := Quad(b0, b1, b2);
      |q| == 4 && IsLetter(q[0]) && IsLetter(q[1]) && IsLetter(q[2]) && IsLetter(q[3]) &&
      Unquad(q[0], q[1], q[2], q[3]) == [b0, b1, b2] &&
      Unquad(q[0], q[1], 'A', 'A')[0] == b0 &&
      Unquad(q[0], q[1], q[2], 'A')[..2] == [b0, b1]
  {
    var v0, v1, v2, v3 := b0 as int / 4, b0 as int % 4 * 16 + b1 as int / 16,
                          b1 as int % 16 * 4 + b2 as int / 64, b2 as int % 64;
    LetterIsLetter(v0);
    LetterIsLetter(v1);
    LetterIsLetter(v2);
    LetterIsLetter(v3);
    assert LetterValue('A') == 0;
    assert v0 * 4 + v1 / 16 == b0 as int;
    assert v1 % 16 * 16 + v2 / 4 == b1 as int;
    assert v2 % 4 * 64 + v3 == b2 as int;
  }

  /** Length and shape of the encoding: four characters per started group of three bytes,
      and a well-formed padded encoding. */
  lemma {:induction false} EncodeWellFormed(b: seq<byte>)
    ensures |Encode(b)| == (|b| + 2) / 3 * 4
    ensures WellFormed(Encode(b))
    decreases |b|
  {
    if |b| == 0 {
    } else if |b| <= 2 {
      QuadLetters(b[0], if |b| == 2 then b[1] else 0, 0);
    } else {
      EncodeWellFormed(b[3..]);
      var q := Quad(b[0], b[1], b[2]);
      QuadLetters(b[0], b[1], b[2]);
      var s := q + Encode(b[3..]);
      assert s[4..] == Encode(b[3..]);
      if |b| == 3 {
        assert s == q;
      }
    }
  }

  /** The round trip for a final single byte, encoded as two letters and `==`. */
  lemma DecodeEncodeOne(b0: byte)
    ensures WellFormed(Encode([b0])) && Decode(Encode([b0])) == [b0]
  {
    QuadRoundTrip(b0, 0, 0);
    var q := Quad(b0, 0, 0);
    var s := Encode([b0]);
    assert s == [q[0], q[1], '=', '='];
    assert Decode(s) == Unquad(q[0], q[1], 'A', 'A')[..1];
  }

  /** The round trip for a final pair of bytes, encoded as three letters and `=`. */
  lemma DecodeEncodeTwo(b0: byte, b1: byte)
    ensures WellFormed(Encode([b0, b1])) && Decode(Encode([b0, b1])) == [b0, b1]
  {
    QuadRoundTrip(b0, b1, 0);
    var q := Quad(b0, b1, 0);
    var s := Encode([b0, b1]);
    assert s == [q[0], q[1], q[2], '='];
    assert q[2] != '=';
    assert Decode(s) == Unquad(q[0], q[1], q[2], 'A')[..2];
  }

  /** A group of four letters in front of a padded encoding decodes group by group. */
  lemma DecodeCons(q: seq<char>, rest: seq<char>)
    requires |q| == 4 && IsLetter(q[0]) && IsLetter(q[1]) && IsLetter(q[2]) && IsLetter(q[3])
    requires WellFormed(rest)
    ensures WellFormed(q + rest)
    ensures Decode(q + rest) == Unquad(q[0], q[1], q[2], q[3]) + Decode(rest)
  {
    var s := q + rest;
    assert s[..4] == q && s[4..] == rest;
    assert s[2] != '=' && s[3] != '=';
  }

  /** One step of the round trip: a whole leading group, given the round trip for the rest. */
  lemma DecodeEncodeStep(b0: byte, b1: byte, b2: byte, rest: seq<byte>)
    requires WellFormed(Encode(rest)) && Decode(Encode(rest)) == rest
    ensures var b := [b0, b1, b2] + rest;
      WellFormed(Encode(b)) && Decode(Encode(b)) == b
  {
    var b := [b0, b1, b2] + rest;
    assert b[3..] == rest;
    var q := Quad(b0, b1, b2);
    var e := Encode(rest);
    assert Encode(b) == q + e;
    QuadRoundTrip(b0, b1, b2);
    DecodeCons(q, e);
  }

  /** Round trip: decoding an encoding gives back the bytes. */
  lemma {:induction false} DecodeEncode(b: seq<byte>)
    ensures WellFormed(Encode(b)) && Decode(Encode(b)) == b
    decreases |b|
  {
    if |b| == 0 {
    } else if |b| == 1 {
      DecodeEncodeOne(b[0]);
      assert b == [b[0]];
    } else if |b| == 2 {
      DecodeEncodeTwo(b[0], b[1]);
      assert b == [b[0], b[1]];
    } else {
      DecodeEncode(b[3..]);
      DecodeEncodeStep(b[0], b[1], b[2], b[3..]);
      assert b == [b[0], b[1], b[2]] + b[3..];
    }
  }

  /** The encoding is injective: distinct byte strings have distinct encodings. */
  lemma EncodeInjective(a: seq<byte>, b: seq<byte>)
    requires Encode(a) == Encode(b)
    ensures a == b
  {
    DecodeEncode(a);
    DecodeEncode(b);
  }

  /** The encoding uses only letters of the alphabet and `=`; in particular it never
      contains `.` or `/`. */
  lemma {:induction false} EncodeAlphabet(b: seq<byte>)
    ensures forall i :: 0 <= i < |Encode(b)| ==> IsLetter(Encode(b)[i]) || Encode(b)[i] == '='
    ensures '.' !in Encode(b) && '/' !in Encode(b)
    decreases |b|
  {
    if |b| == 0 {
    } else if |b| <= 2 {
      QuadLetters(b[0], if |b| == 2 then b[1] else 0, 0);
    } else {
      EncodeAlphabet(b[3..]);
      QuadLetters(b[0], b[1], b[2]);
      var q := Quad(b[0], b[1], b[2]);
      var s := q + Encode(b[3..]);
      forall i | 0 <= i < |s| ensures IsLetter(s[i]) || s[i] == '=' {
        if i >= 4 { assert s[i] == Encode(b[3..])[i - 4]; }
      }
    }
  }
}
