/** Base64 as commons-codec applies it: `encodeBase64String` is the padded,
    unchunked encoding of RFC 4648 section 4; `decodeBase64` is lenient. It
    skips every octet outside its decoding table, accepts the URL-safe
    characters `-` and `_` besides `+` and `/`, stops at the first `=`, and
    silently drops a lone trailing sextet. */
module Base64 {
  import opened Bytes
  import Utf8

  type Sextet = x: int | 0 <= x < 64

  /** The alphabet of table 1 of RFC 4648. */
  function Char(v: Sextet): char
  {
    if v < 26 then ('A' as int + v) as char
    else if v < 52 then ('a' as int + (v - 26)) as char
    else if v < 62 then ('0' as int + (v - 52)) as char
    else if v == 62 then '+'
    else '/'
  }

  const PadChar: char := '='

  /** Characters an encoder output is made of. */
  predicate IsEncodingChar(c: char)
  {
    ('A' <= c <= 'Z') || ('a' <= c <= 'z') || ('0' <= c <= '9') || c == '+' || c == '/' || c == PadChar
  }

  /** The four sextets of the 24-bit group `b0 b1 b2`, most significant first. */
  function Group(b0: byte, b1: byte, b2: byte): (v: seq<Sextet>)
    ensures |v| == 4
  {
    [b0 / 4, b0 % 4 * 16 + b1 / 16, b1 % 16 * 4 + b2 / 64, b2 % 64]
  }

  function Chars(v: seq<Sextet>): (s: string)
    ensures |s| == |v|
  {
    if v == [] then [] else [Char(v[0])] + Chars(v[1..])
  }

  /** `Base64.encodeBase64String(bytes)`: every 3 octets become 4 characters;
      a final group of 1 or 2 octets is zero-extended, cut to 2 or 3
      characters and completed with `=`. */
  function Encode(b: seq<byte>): string
    decreases |b|
  {
    if |b| == 0 then []
    else if |b| == 1 then Chars(Group(b[0], 0, 0)[..2]) + [PadChar, PadChar]
    else if |b| == 2 then Chars(Group(b[0], b[1], 0)[..3]) + [PadChar]
    else Chars(Group(b[0], b[1], b[2])) + Encode(b[3..])
  }

  /** The decoding table: the sextet an input octet stands for, or -1 for an
      octet the decoder skips (whitespace, line breaks, non-ASCII, …). */
  function Value(o: byte): int
  {
    if 'A' as int <= o <= 'Z' as int then o - 'A' as int
    else if 'a' as int <= o <= 'z' as int then o - 'a' as int + 26
    else if '0' as int <= o <= '9' as int then o - '0' as int + 52
    else if o == '+' as int || o == '-' as int then 62
    else if o == '/' as int || o == '_' as int then 63
    else -1
  }

  /** The sextets of the input, in order, up to (not including) the first `=`. */
  function Sextets(input: seq<byte>): seq<Sextet>
  {
    if input == [] || input[0] == PadChar as int then []
    else if Value(input[0]) < 0 then Sextets(input[1..])
    else [Value(input[0])] + Sextets(input[1..])
  }

  /** Packs sextets into octets, four sextets to three octets; two or three
      trailing sextets give one or two octets, a single one gives none. */
  function Assemble(v: seq<Sextet>): seq<byte>
  {
    if |v| < 2 then []
    else
      var a: int, b: int := v[0], v[1];
      if |v| == 2 then [a * 4 + b / 16]
      else
        var c: int := v[2];
        if |v| == 3 then [a * 4 + b / 16, b % 16 * 16 + c / 4]
        else
          var d: int := v[3];
          [a * 4 + b / 16, b % 16 * 16 + c / 4, c % 4 * 64 + d] + Assemble(v[4..])
  }

  /** `Base64.decodeBase64(byte[])`. */
  function Decode(input: seq<byte>): seq<byte>
  {
    Assemble(Sextets(input))
  }

  /** `Base64.decodeBase64(String)`, which takes the string's UTF-8 bytes first. */
  function DecodeString(s: string): seq<byte>
  {
    Decode(Utf8.Encode(s))
  }

  /** Four characters for every started group of three octets. */
  lemma {:induction false} EncodeLength(b: seq<byte>)
    ensures |Encode(b)| == 4 * ((|b| + 2) / 3)
    decreases |b|
  {
    if |b| >= 3 {
      EncodeLength(b[3..]);
    }
  }

  lemma CharValue(v: Sextet)
    ensures Char(v) as int < 0x80
    ensures Char(v) != PadChar
    ensures IsEncodingChar(Char(v))
    ensures Value(Char(v) as int) == v
  {
  }

  lemma {:induction false} CharsAlphabet(v: seq<Sextet>)
    ensures forall i :: 0 <= i < |Chars(v)| ==> IsEncodingChar(Chars(v)[i]) && Chars(v)[i] as int < 0x80
  {
    if v != [] {
      CharValue(v[0]);
      CharsAlphabet(v[1..]);
    }
  }

  /** Encoder output consists of alphabet characters and `=` only. */
  lemma {:induction false} EncodeAlphabet(b: seq<byte>)
    ensures forall i :: 0 <= i < |Encode(b)| ==> IsEncodingChar(Encode(b)[i])
    ensures Utf8.IsAscii(Encode(b))
    decreases |b|
  {
    if |b| == 1 {
      CharsAlphabet(Group(b[0], 0, 0)[..2]);
    } else if |b| == 2 {
      CharsAlphabet(Group(b[0], b[1], 0)[..3]);
    } else if |b| >= 3 {
      CharsAlphabet(Group(b[0], b[1], b[2]));
      EncodeAlphabet(b[3..]);
    }
  }

  /** The sextet a character of a `String` input stands for: its UTF-8
      octets are one table octet for an ASCII character, and octets the
      table skips for any other character. */
  function SextetOf(c: char): int
  {
    if c as int < 0x80 then Value(c as int) else -1
  }

  /** `Sextets` read off the characters of a string instead of its octets. */
  function CharSextets(s: string): seq<Sextet>
  {
    if s == [] || s[0] == PadChar then []
    else if SextetOf(s[0]) < 0 then CharSextets(s[1..])
    else [SextetOf(s[0])] + CharSextets(s[1..])
  }

  lemma NonAsciiHigh(c: char)
    requires c as int >= 0x80
    ensures forall i :: 0 <= i < |Utf8.EncodeChar(c)| ==> Utf8.EncodeChar(c)[i] >= 0x80
  {
  }

  lemma {:induction false} SkipHigh(u: seq<byte>, e: seq<byte>)
    requires forall i :: 0 <= i < |u| ==> u[i] >= 0x80
    ensures Sextets(u + e) == Sextets(e)
  {
    if u != [] {
      assert (u + e)[1..] == u[1..] + e;
      SkipHigh(u[1..], e);
    } else {
      assert u + e == e;
    }
  }

  /** Decoding a string's UTF-8 octets sees exactly its ASCII table
      characters, up to the first `=`. */
  lemma {:induction false} SextetsUtf8(s: string)
    ensures Sextets(Utf8.Encode(s)) == CharSextets(s)
  {
    if s != [] {
      var u := Utf8.EncodeChar(s[0]);
      var e := Utf8.Encode(s[1..]);
      SextetsUtf8(s[1..]);
      if s[0] as int < 0x80 {
        assert u == [s[0] as int];
        assert (u + e)[1..] == e;
      } else {
        NonAsciiHigh(s[0]);
        SkipHigh(u, e);
      }
    }
  }

  lemma DecodeChars(s: string)
    ensures DecodeString(s) == Assemble(CharSextets(s))
  {
    SextetsUtf8(s);
  }

  lemma Regroup<T>(v: seq<T>, t: seq<T>)
    requires |v| > 0
    ensures [v[0]] + (v[1..] + t) == v + t
  {
  }

  lemma SextetOfChar(x: Sextet, rest: string)
    ensures CharSextets([Char(x)] + rest) == [x] + CharSextets(rest)
  {
    CharValue(x);
    assert ([Char(x)] + rest)[1..] == rest;
  }

  /** Alphabet characters decode to their sextets, whatever follows them. */
  lemma {:induction false} SextetsOfChars(v: seq<Sextet>, rest: string)
    ensures CharSextets(Chars(v) + rest) == v + CharSextets(rest)
  {
    if v == [] {
      assert Chars(v) + rest == rest;
    } else {
      calc {
        CharSextets(Chars(v) + rest);
        { assert Chars(v) + rest == [Char(v[0])] + (Chars(v[1..]) + rest); }
        CharSextets([Char(v[0])] + (Chars(v[1..]) + rest));
        { SextetOfChar(v[0], Chars(v[1..]) + rest); }
        [v[0]] + CharSextets(Chars(v[1..]) + rest);
        { SextetsOfChars(v[1..], rest); }
        [v[0]] + (v[1..] + CharSextets(rest));
        { Regroup(v, CharSextets(rest)); }
        v + CharSextets(rest);
      }
    }
  }

  lemma GroupOne(b0: byte)
    ensures Assemble(Group(b0, 0, 0)[..2]) == [b0]
  {
  }

  lemma GroupTwo(b0: byte, b1: byte)
    ensures Assemble(Group(b0, b1, 0)[..3]) == [b0, b1]
  {
  }

  lemma GroupThree(b0: byte, b1: byte, b2: byte, rest: seq<Sextet>)
    ensures Assemble(Group(b0, b1, b2) + rest) == [b0, b1, b2] + Assemble(rest)
  {
    assert (Group(b0, b1, b2) + rest)[4..] == rest;
  }

  lemma DecodeEncodeOne(b0: byte)
    ensures DecodeString(Encode([b0])) == [b0]
  {
    DecodeChars(Encode([b0]));
    SextetsOfChars(Group(b0, 0, 0)[..2], [PadChar, PadChar]);
    GroupOne(b0);
  }

  lemma DecodeEncodeTwo(b0: byte, b1: byte)
    ensures DecodeString(Encode([b0, b1])) == [b0, b1]
  {
    DecodeChars(Encode([b0, b1]));
    SextetsOfChars(Group(b0, b1, 0)[..3], [PadChar]);
    GroupTwo(b0, b1);
  }

  /** One full group in front of an encoding decodes to its three octets in
      front of the decoding. */
  lemma EncodeGroup(b: seq<byte>)
    requires |b| >= 3
    ensures Encode(b) == Chars(Group(b[0], b[1], b[2])) + Encode(b[3..])
  {
  }

  /** Decoding the characters of one full group yields its three octets,
      whatever follows. */
  lemma DecodeGroup(b0: byte, b1: byte, b2: byte, rest: string)
    ensures DecodeString(Chars(Group(b0, b1, b2)) + rest) == [b0, b1, b2] + DecodeString(rest)
  {
    DecodeChars(Chars(Group(b0, b1, b2)) + rest);
    DecodeChars(rest);
    SextetsOfChars(Group(b0, b1, b2), rest);
    GroupThree(b0, b1, b2, CharSextets(rest));
  }

  /** `decodeBase64(encodeBase64String(b)) == b`: the round trip of the
      envelope's transport encoding. */
  lemma {:induction false} DecodeEncode(b: seq<byte>)
    ensures DecodeString(Encode(b)) == b
    decreases |b|
  {
    if |b| == 1 {
      DecodeEncodeOne(b[0]);
      assert b == [b[0]];
    } else if |b| == 2 {
      DecodeEncodeTwo(b[0], b[1]);
      assert b == [b[0], b[1]];
    } else if |b| >= 3 {
      EncodeGroup(b);
      DecodeGroup(b[0], b[1], b[2], Encode(b[3..]));
      DecodeEncode(b[3..]);
      assert b == [b[0], b[1], b[2]] + b[3..];
    }
  }
}
