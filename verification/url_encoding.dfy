/** `java.net.URLEncoder.encode(s, "UTF-8")`: the
    application/x-www-form-urlencoded byte serializer of section 5.2 of the
    WHATWG URL Standard, and the decoding a receiver applies to undo it. */
module UrlEncoding {
  import opened Bytes
  import opened Wrappers
  import Utf8

  /** Characters left as they are: ASCII letters and digits, `.`, `-`, `*`, `_`. */
  predicate IsUnreserved(c: char)
  {
    ('a' <= c <= 'z') || ('A' <= c <= 'Z') || ('0' <= c <= '9') || c == '.' || c == '-' || c == '*' || c == '_'
  }

  /** Upper-case hexadecimal digit, as `URLEncoder` writes escapes. */
  function HexDigit(d: int): char
    requires 0 <= d < 16
  {
    if d < 10 then ('0' as int + d) as char else ('A' as int + (d - 10)) as char
  }

  /** `%XY` for each octet. */
  function Percent(bs: seq<byte>): (r: string)
    ensures |r| == 3 * |bs|
  {
    if bs == [] then [] else ['%', HexDigit(bs[0] / 16), HexDigit(bs[0] % 16)] + Percent(bs[1..])
  }

  /** One character: itself if unreserved, `+` for a space, otherwise the
      escapes of its UTF-8 octets. */
  function EncodeChar(c: char): string
  {
    if IsUnreserved(c) then [c]
    else if c == ' ' then "+"
    else Percent(Utf8.EncodeChar(c))
  }

  /** Characters that can appear in encoded output. */
  predicate IsEncodedChar(c: char)
  {
    IsUnreserved(c) || c == '+' || c == '%'
  }

  /** `URLEncoder.encode(s, "UTF-8")`. Its output never holds `&` or `=`, so
      it cannot break a `key=value&…` string apart. */
  function Encode(s: string): (r: string)
    ensures forall i :: 0 <= i < |r| ==> IsEncodedChar(r[i])
    ensures |s| <= |r|
  {
    if s == [] then []
    else
      var head := EncodeChar(s[0]);
      assert forall i :: 0 <= i < |head| ==> IsEncodedChar(head[i]) by {
        var u := Utf8.EncodeChar(s[0]);
        if !IsUnreserved(s[0]) && s[0] != ' ' {
          PercentChars(u);
        }
      }
      head + Encode(s[1..])
  }

  lemma {:induction false} PercentChars(bs: seq<byte>)
    ensures forall i :: 0 <= i < |Percent(bs)| ==> IsEncodedChar(Percent(bs)[i])
  {
    if bs != [] {
      PercentChars(bs[1..]);
    }
  }

  /** Value of a hexadecimal digit of either case, or -1. */
  function HexValue(c: char): int
  {
    if '0' <= c <= '9' then c as int - '0' as int
    else if 'A' <= c <= 'F' then c as int - 'A' as int + 10
    else if 'a' <= c <= 'f' then c as int - 'a' as int + 10
    else -1
  }

  function Prepend(b: seq<byte>, rest: Option<seq<byte>>): Option<seq<byte>>
  {
    match rest
    case None => None
    case Some(r) => Some(b + r)
  }

  /** The octets an encoded string stands for: `%XY` is the octet XY, `+` a
      space, any other character its own UTF-8 octets; a malformed escape
      makes the whole string malformed. */
  function Octets(t: string): Option<seq<byte>>
    decreases |t|
  {
    if t == [] then Some([])
    else if t[0] == '%' then
      if |t| < 3 || HexValue(t[1]) < 0 || HexValue(t[2]) < 0 then None
      else Prepend([HexValue(t[1]) * 16 + HexValue(t[2])], Octets(t[3..]))
    else if t[0] == '+' then Prepend([' ' as int], Octets(t[1..]))
    else Prepend(Utf8.EncodeChar(t[0]), Octets(t[1..]))
  }

  /** `URLDecoder.decode(t, "UTF-8")` on well-formed input. */
  function Decode(t: string): Option<string>
  {
    match Octets(t)
    case None => None
    case Some(b) => Some(Utf8.Decode(b))
  }

  lemma HexValueDigit(d: int)
    requires 0 <= d < 16
    ensures HexValue(HexDigit(d)) == d
  {
  }

  /** One escape stands for its octet. */
  lemma EscapeOctets(b: byte, rest: string)
    ensures Octets(['%', HexDigit(b / 16), HexDigit(b % 16)] + rest) == Prepend([b], Octets(rest))
  {
    var t := ['%', HexDigit(b / 16), HexDigit(b % 16)] + rest;
    assert t[3..] == rest;
    HexValueDigit(b / 16);
    HexValueDigit(b % 16);
  }

  lemma PrependPrepend(a: seq<byte>, b: seq<byte>, rest: Option<seq<byte>>)
    ensures Prepend(a, Prepend(b, rest)) == Prepend(a + b, rest)
  {
    if rest.Some? {
      assert a + (b + rest.value) == (a + b) + rest.value;
    }
  }

  lemma PercentCons(bs: seq<byte>, rest: string)
    requires bs != []
    ensures Percent(bs) + rest == ['%', HexDigit(bs[0] / 16), HexDigit(bs[0] % 16)] + (Percent(bs[1..]) + rest)
  {
  }

  lemma EscapeChain(x: string, bs: seq<byte>, tail: string, rest: string)
    requires bs != []
    requires x == ['%', HexDigit(bs[0] / 16), HexDigit(bs[0] % 16)] + tail
    requires Octets(tail) == Prepend(bs[1..], Octets(rest))
    ensures Octets(x) == Prepend(bs, Octets(rest))
  {
    EscapeOctets(bs[0], tail);
    PrependPrepend([bs[0]], bs[1..], Octets(rest));
    assert [bs[0]] + bs[1..] == bs;
  }

  lemma PrependNothing(x: string, rest: string)
    requires x == rest
    ensures Octets(x) == Prepend([], Octets(rest))
  {
    if Octets(rest).Some? {
      assert [] + Octets(rest).value == Octets(rest).value;
    }
  }

  lemma {:induction false} PercentOctets(bs: seq<byte>, rest: string)
    ensures Octets(Percent(bs) + rest) == Prepend(bs, Octets(rest))
  {
    if bs == [] {
      PrependNothing(Percent(bs) + rest, rest);
    } else {
      PercentOctets(bs[1..], rest);
      PercentCons(bs, rest);
      EscapeChain(Percent(bs) + rest, bs, Percent(bs[1..]) + rest, rest);
    }
  }

  lemma EncodeCharOctets(c: char, rest: string)
    ensures Octets(EncodeChar(c) + rest) == Prepend(Utf8.EncodeChar(c), Octets(rest))
  {
    if IsUnreserved(c) {
      assert ([c] + rest)[1..] == rest;
    } else if c == ' ' {
      assert ("+" + rest)[1..] == rest;
    } else {
      PercentOctets(Utf8.EncodeChar(c), rest);
    }
  }

  /** The escapes stand for exactly the UTF-8 octets of the text. */
  lemma {:induction false} EncodeOctets(s: string)
    ensures Octets(Encode(s)) == Some(Utf8.Encode(s))
  {
    if s != [] {
      EncodeCharOctets(s[0], Encode(s[1..]));
      EncodeOctets(s[1..]);
    }
  }

  /** Decoding undoes `URLEncoder.encode`. */
  lemma DecodeEncode(s: string)
    ensures Decode(Encode(s)) == Some(s)
  {
    EncodeOctets(s);
    Utf8.DecodeEncode(s);
  }
}
