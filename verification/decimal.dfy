/** Decimal text of integers, as `Long.toString` writes a header value such as
    `Content-Length` and `Long.parseLong` reads it back. */
module Decimal {

  predicate IsDigit(c: char)
  {
    '0' <= c <= '9'
  }

  function Digit(d: int): char
    requires 0 <= d < 10
  {
    ('0' as int + d) as char
  }

  /** Digits of a natural number, most significant first, no leading zero. */
  function Natural(n: nat): (s: string)
    ensures |s| > 0
    ensures forall i :: 0 <= i < |s| ==> IsDigit(s[i])
  {
    if n < 10 then [Digit(n)] else Natural(n / 10) + [Digit(n % 10)]
  }

  /** `Long.toString(n)`: a minus sign before the digits of a negative number. */
  function Format(n: int): (s: string)
    ensures |s| > 0
    ensures (n < 0) <==> (s[0] == '-')
  {
    if n < 0 then "-" + Natural(-n) else Natural(n)
  }

  /** The value of a string of digits. */
  function ParseNatural(s: string): nat
    requires forall i :: 0 <= i < |s| ==> IsDigit(s[i])
  {
    if s == [] then 0
    else
      assert IsDigit(s[|s| - 1]);
      ParseNatural(s[..|s| - 1]) * 10 + (s[|s| - 1] as int - '0' as int)
  }

  /** `Long.parseLong` on well-formed input: an optional minus sign and digits. */
  function Parse(s: string): int
    requires |s| > 0
    requires s[0] == '-' ==> |s| > 1 && forall i :: 1 <= i < |s| ==> IsDigit(s[i])
    requires s[0] != '-' ==> forall i :: 0 <= i < |s| ==> IsDigit(s[i])
  {
    if s[0] == '-' then 0 - ParseNatural(s[1..]) as int else ParseNatural(s)
  }

  lemma {:induction false} ParseNatural_Natural(n: nat)
    ensures ParseNatural(Natural(n)) == n
  {
    if n >= 10 {
      var s := Natural(n);
      assert s[..|s| - 1] == Natural(n / 10);
      ParseNatural_Natural(n / 10);
    }
  }

  /** Reading back a formatted number gives the number. */
  lemma ParseFormat(n: int)
    ensures Parse(Format(n)) == n
  {
    if n < 0 {
      assert Format(n)[1..] == Natural(-n);
      ParseNatural_Natural(-n);
    } else {
      ParseNatural_Natural(n);
    }
  }
}
