/** Decimal text of integers, as JavaScript's number-to-string conversion
    produces it for integral values of magnitude at most 2^53 (larger doubles
    are written with their shortest round-tripping digits padded with zeros,
    which this text does not follow): an optional '-' followed by the digits,
    with no leading zeros. It is used both when a number is rendered into a
    template and when a numeric key becomes a property name of the validator
    table. */
module Decimal {

  predicate IsDigit(c: char) {
    '0' <= c <= '9'
  }

  function DigitChar(d: nat): (c: char)
    requires d < 10
    ensures IsDigit(c) && c as int - '0' as int == d
  {
    (d + '0' as int) as char
  }

  function DigitValue(c: char): (d: nat)
    requires IsDigit(c)
    ensures d < 10 && DigitChar(d) == c
  {
    c as int - '0' as int
  }

  predicate AllDigits(s: string) {
    forall i :: 0 <= i < |s| ==> IsDigit(s[i])
  }

  /** The canonical decimal text of a natural number: at least one digit, and no
      leading zero unless the number itself is zero. */
  function NatToString(n: nat): (s: string)
    ensures |s| >= 1 && AllDigits(s)
    ensures s[0] == '0' ==> n == 0
    decreases n
  {
    if n < 10 then [DigitChar(n)] else NatToString(n / 10) + [DigitChar(n % 10)]
  }

  function IntToString(i: int): string {
    if i < 0 then "-" + NatToString(-i) else NatToString(i)
  }

  /** Reads a string of digits back as a natural number (the inverse direction). */
  function ParseNat(s: string): nat
    requires AllDigits(s)
    decreases |s|
  {
    if s == [] then 0 else 10 * ParseNat(s[..|s| - 1]) + DigitValue(s[|s| - 1])
  }

  function ParseInt(s: string): int
    requires |s| >= 1
    requires if s[0] == '-' then AllDigits(s[1..]) else AllDigits(s)
  {
    if s[0] == '-' then -(ParseNat(s[1..]) as int) else ParseNat(s)
  }

  lemma {:induction false} ParseNatToString(n: nat)
    ensures ParseNat(NatToString(n)) == n
    decreases n
  {
    var s := NatToString(n);
    if n >= 10 {
      ParseNatToString(n / 10);
      assert s[..|s| - 1] == NatToString(n / 10);
    }
  }

  /** Round trip: the decimal text of an integer reads back as that integer. */
  lemma ParseIntToString(i: int)
    ensures var s := IntToString(i);
            |s| >= 1 && (if s[0] == '-' then AllDigits(s[1..]) else AllDigits(s)) && ParseInt(s) == i
  {
    var s := IntToString(i);
    if i < 0 {
      assert s[1..] == NatToString(-i);
      ParseNatToString(-i);
    } else {
      ParseNatToString(i);
    }
  }

  /** Different integers have different decimal texts. */
  lemma IntToStringInjective(i: int, j: int)
    ensures IntToString(i) == IntToString(j) <==> i == j
  {
    if IntToString(i) == IntToString(j) {
      ParseIntToString(i);
      ParseIntToString(j);
    }
  }

  /** A digit string in canonical form: no leading zero unless it is "0". */
  predicate CanonicalNat(s: string) {
    |s| >= 1 && AllDigits(s) && (s[0] == '0' ==> |s| == 1)
  }

  /** The texts `IntToString` can produce: a canonical digit string, or a '-'
      followed by a canonical digit string other than "0" (there is no "-0"). */
  predicate Canonical(s: string) {
    CanonicalNat(s) || (|s| >= 2 && s[0] == '-' && CanonicalNat(s[1..]) && s[1..] != "0")
  }

  /** Converse round trip: a canonical digit string is the text of its value. */
  lemma {:induction false} NatToStringParse(s: string)
    requires CanonicalNat(s)
    ensures NatToString(ParseNat(s)) == s
    decreases |s|
  {
    if |s| > 1 {
      var p := s[..|s| - 1];
      assert CanonicalNat(p);
      NatToStringParse(p);
      var q := ParseNat(p);
      assert q != 0 by {
        assert p[0] == s[0] != '0';
      }
      var n := ParseNat(s);
      assert n == 10 * q + DigitValue(s[|s| - 1]);
      assert n / 10 == q && n % 10 == DigitValue(s[|s| - 1]);
      assert NatToString(n) == p + [s[|s| - 1]];
    }
  }

  /** Every integer's text is canonical. */
  lemma IntToStringCanonical(i: int)
    ensures Canonical(IntToString(i))
  {
    var s := IntToString(i);
    if i < 0 {
      assert s[1..] == NatToString(-i);
      ParseNatToString(-i);
    }
  }

  /** Converse round trip: a canonical text is the text of the integer it
      reads as, so the canonical texts are exactly the integers' texts. */
  lemma IntToStringParse(s: string)
    requires Canonical(s)
    ensures |s| >= 1 && (if s[0] == '-' then AllDigits(s[1..]) else AllDigits(s))
    ensures IntToString(ParseInt(s)) == s
  {
    if CanonicalNat(s) {
      assert IsDigit(s[0]);
      NatToStringParse(s);
    } else {
      var t := s[1..];
      NatToStringParse(t);
      assert ParseNat(t) != 0;
      assert IntToString(ParseInt(s)) == "-" + t;
    }
  }
}
