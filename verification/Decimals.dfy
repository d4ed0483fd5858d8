/** `std::to_string` and `std::stoi` on 32-bit integers. */
module Decimals {
  import opened Bytes
  import opened Values

  function Digit(d: nat): char
    requires d < 10
  {
    ('0' as int + d) as char
  }

  predicate IsDigit(c: char) {
    '0' <= c <= '9'
  }

  function DigitValue(c: char): nat
    requires IsDigit(c)
  {
    c as int - '0' as int
  }

  function NatText(n: nat): (s: string)
    ensures s != "" && forall i | 0 <= i < |s| :: IsDigit(s[i])
  {
    if n < 10 then [Digit(n)] else NatText(n / 10) + [Digit(n % 10)]
  }

  function ToText(i: int): string {
    if i < 0 then "-" + NatText(-i) else NatText(i)
  }

  /** The characters `isspace` accepts, which `strtol` skips. */
  predicate IsSpace(c: char) {
    c == ' ' || 9 <= c as int <= 13
  }

  /** The longest prefix of digits, and its value added to `n` shifted left past it. */
  function ReadDigits(s: string, n: nat): nat {
    if s == "" || !IsDigit(s[0]) then n else ReadDigits(s[1..], 10 * n + DigitValue(s[0]))
  }

  function SkipSpace(s: string): string {
    if s != "" && IsSpace(s[0]) then SkipSpace(s[1..]) else s
  }

  /** `stoi`: spaces, a sign, digits, then anything; no digits or too large a value throws. */
  function Stoi(s: string): Option<int32> {
    var t := SkipSpace(s);
    var negative := t != "" && t[0] == '-';
    var u := if negative || (t != "" && t[0] == '+') then t[1..] else t;
    if u == "" || !IsDigit(u[0]) then None
    else
      var n: int := ReadDigits(u, 0);
      var v := if negative then -n else n;
      if -TWO_TO_THE_31 <= v < TWO_TO_THE_31 then Some(v) else None
  }


  lemma {:induction false} ReadMore(s: string, d: char, n: nat)
    requires IsDigit(d) && forall i | 0 <= i < |s| :: IsDigit(s[i])
    ensures ReadDigits(s + [d], n) == 10 * ReadDigits(s, n) + DigitValue(d)
    decreases |s|
  {
    if s == "" {
      assert s + [d] == [d] && [d][1..] == "";
      assert ReadDigits([d], n) == ReadDigits("", 10 * n + DigitValue(d));
    } else {
      assert (s + [d])[0] == s[0] && (s + [d])[1..] == s[1..] + [d];
      ReadMore(s[1..], d, 10 * n + DigitValue(s[0]));
    }
  }

  lemma {:induction false} NatTextReadsBack(n: nat)
    ensures ReadDigits(NatText(n), 0) == n
  {
    if n < 10 {
      assert NatText(n)[1..] == "";
    } else {
      NatTextReadsBack(n / 10);
      ReadMore(NatText(n / 10), Digit(n % 10), 0);
    }
  }

  /** What `to_string` writes, `stoi` reads. */
  lemma TextReadsBack(i: int32)
    ensures Stoi(ToText(i)) == Some(i)
  {
    hide NatText, ReadDigits;
    var n: int := i;
    if i < 0 {
      var digits := NatText(-n);
      NatTextReadsBack(-n);
      assert ToText(i)[0] == '-' && ToText(i)[1..] == digits;
      assert SkipSpace(ToText(i)) == ToText(i);
    } else {
      NatTextReadsBack(i);
      assert SkipSpace(ToText(i)) == ToText(i);
    }
  }

  // ---- What a numeral is ----

  /** Blanks, tabs, line feeds, vertical tabs, form feeds and carriage returns. */
  predicate AllSpace(s: string) {
    forall i | 0 <= i < |s| :: var c := s[i] as int; c == 32 || c == 9 || c == 10 || c == 11 || c == 12 || c == 13
  }

  predicate AllDigits(s: string) {
    forall i | 0 <= i < |s| :: IsDigit(s[i])
  }

  /** The number a row of decimal digits denotes. */
  function Value(s: string): nat
    requires AllDigits(s)
  {
    if s == "" then 0 else 10 * Value(s[..|s| - 1]) + DigitValue(s[|s| - 1])
  }

  /** `s` is white space, an optional sign, at least one digit, and a rest that is no digit. */
  predicate Reads(s: string, lead: string, sign: string, digits: string, rest: string) {
    && s == lead + sign + digits + rest
    && AllSpace(lead) && (sign == "" || sign == "+" || sign == "-")
    && digits != "" && AllDigits(digits) && (rest == "" || !IsDigit(rest[0]))
  }

  lemma {:induction false} SpaceIsSkipped(lead: string, t: string)
    requires AllSpace(lead) && (t == "" || !IsSpace(t[0]))
    ensures SkipSpace(lead + t) == t
  {
    if lead == "" {
      assert lead + t == t;
    } else {
      assert (lead + t)[1..] == lead[1..] + t;
      SpaceIsSkipped(lead[1..], t);
    }
  }

  lemma {:induction false} SkippedIsSpace(s: string) returns (lead: string)
    ensures s == lead + SkipSpace(s) && AllSpace(lead)
    ensures SkipSpace(s) == "" || !IsSpace(SkipSpace(s)[0])
  {
    if s != "" && IsSpace(s[0]) {
      var more := SkippedIsSpace(s[1..]);
      lead := [s[0]] + more;
    } else {
      lead := "";
    }
  }

  lemma {:induction false} DigitsStop(digits: string, rest: string, n: nat)
    requires AllDigits(digits) && (rest == "" || !IsDigit(rest[0]))
    ensures ReadDigits(digits + rest, n) == ReadDigits(digits, n)
    decreases |digits|
  {
    if digits == "" {
      assert digits + rest == rest;
    } else {
      assert (digits + rest)[0] == digits[0] && (digits + rest)[1..] == digits[1..] + rest;
      DigitsStop(digits[1..], rest, 10 * n + DigitValue(digits[0]));
    }
  }

  lemma {:induction false} DigitsDenote(digits: string)
    requires AllDigits(digits)
    ensures ReadDigits(digits, 0) == Value(digits)
  {
    if digits != "" {
      var front := digits[..|digits| - 1];
      assert digits == front + [digits[|digits| - 1]];
      DigitsDenote(front);
      ReadMore(front, digits[|digits| - 1], 0);
    }
  }

  lemma {:induction false} FirstDigits(s: string) returns (digits: string, rest: string)
    ensures s == digits + rest && AllDigits(digits) && (rest == "" || !IsDigit(rest[0]))
    ensures s != "" && IsDigit(s[0]) ==> digits != ""
  {
    if s != "" && IsDigit(s[0]) {
      digits, rest := FirstDigits(s[1..]);
      digits := [s[0]] + digits;
    } else {
      digits, rest := "", s;
    }
  }

  lemma SignedDigits(sign: string, u: string)
    requires (sign == "" || sign == "+" || sign == "-") && u != "" && IsDigit(u[0])
    ensures var t := sign + u;
            && t != "" && !IsSpace(t[0]) && (t[0] == '-' <==> sign == "-") && (t[0] == '+' <==> sign == "+")
            && (if t[0] == '-' || t[0] == '+' then t[1..] else t) == u
  {
    if sign == "" {
      assert sign + u == u;
    } else {
      assert (sign + u)[1..] == u;
    }
  }

  /** The parts of a numeral as the readers take it apart. */
  lemma TakenApart(s: string, lead: string, sign: string, digits: string, rest: string)
    requires Reads(s, lead, sign, digits, rest)
    ensures SkipSpace(s) == sign + (digits + rest) && digits + rest != "" && IsDigit((digits + rest)[0])
    ensures ReadDigits(digits + rest, 0) == Value(digits)
  {
    hide SkipSpace, ReadDigits, Value;
    var u := digits + rest;
    assert u[0] == digits[0];
    assert s == lead + (sign + u);
    SignedDigits(sign, u);
    SpaceIsSkipped(lead, sign + u);
    DigitsStop(digits, rest, 0);
    DigitsDenote(digits);
  }

  /** `stoi` gives the number a text begins with, after white space and a sign, if it has 32 bits. */
  lemma StoiReads(s: string, lead: string, sign: string, digits: string, rest: string)
    requires Reads(s, lead, sign, digits, rest)
    ensures var n: int := Value(digits);
            var v := if sign == "-" then -n else n;
            Stoi(s) == if -TWO_TO_THE_31 <= v < TWO_TO_THE_31 then Some(v) else None
  {
    hide SkipSpace, ReadDigits, Value;
    TakenApart(s, lead, sign, digits, rest);
    SignedDigits(sign, digits + rest);
  }

  /** It gives nothing for a text that does not begin with a number. */
  lemma StoiNeedsNumber(s: string) returns (lead: string, sign: string, digits: string, rest: string)
    requires Stoi(s).Some?
    ensures Reads(s, lead, sign, digits, rest)
  {
    hide ReadDigits;
    lead := SkippedIsSpace(s);
    var t := SkipSpace(s);
    sign := if t[0] == '-' then "-" else if t[0] == '+' then "+" else "";
    var u := if sign == "" then t else t[1..];
    assert t == sign + u;
    digits, rest := FirstDigits(u);
  }
}
