/** Decimal rendering of integers as JavaScript's `String(n)` produces it for
    integral numbers of magnitude below 10^21 (from there on `String` switches
    to exponent form), and `padStart` with a one-character filler. These are the
    pieces the date key `getDocId` is assembled from. */
module Decimal {
  import opened Wrappers

  predicate IsDigit(c: char) {
    '0' <= c <= '9'
  }

  predicate AllDigits(s: string) {
    forall i :: 0 <= i < |s| ==> IsDigit(s[i])
  }

  function DigitChar(d: nat): (c: char)
    requires d < 10
    ensures IsDigit(c)
  {
    ('0' as int + d) as char
  }

  function DigitValue(c: char): (d: nat)
    requires IsDigit(c)
    ensures d < 10 && DigitChar(d) == c
  {
    c as int - '0' as int
  }

  /** The number a string of decimal digits denotes (leading zeros allowed). */
  function Value(s: string): nat
    requires AllDigits(s)
  {
    if s == [] then 0 else Value(s[..|s| - 1]) * 10 + DigitValue(s[|s| - 1])
  }

  /** `String(n)` for a non-negative integer: its digits, with no leading zero
      except for zero itself. */
  function NatToString(n: nat): (s: string)
    ensures |s| >= 1 && AllDigits(s)
    ensures |s| == 1 <==> n < 10
    ensures s[0] == '0' <==> n == 0
  {
    if n < 10 then [DigitChar(n)] else NatToString(n / 10) + [DigitChar(n % 10)]
  }

  /** Reading back the digits `NatToString` writes gives the number again. */
  lemma {:induction false} NatToStringRoundTrip(n: nat)
    ensures Value(NatToString(n)) == n
  {
    if n >= 10 {
      var s := NatToString(n / 10);
      NatToStringRoundTrip(n / 10);
      assert (s + [DigitChar(n % 10)])[..|s|] == s;
    }
  }

  /** `String(n)` for any integer: a minus sign before the digits of a negative one. */
  function IntToString(n: int): (s: string)
    ensures |s| >= 1
    ensures s[0] == '-' <==> n < 0
  {
    if n < 0 then "-" + NatToString(-n) else NatToString(n)
  }

  /** The digits after the sign denote the magnitude. */
  lemma IntToStringValue(n: int)
    ensures var s := IntToString(n);
      && (n < 0 ==> AllDigits(s[1..]) && Value(s[1..]) == -n)
      && (n >= 0 ==> AllDigits(s) && Value(s) == n)
  {
    var s := IntToString(n);
    if n < 0 {
      assert s[1..] == NatToString(-n);
      NatToStringRoundTrip(-n);
    } else {
      NatToStringRoundTrip(n);
    }
  }

  /** Reads an optional minus sign followed by decimal digits. */
  function ReadInt(s: string): Option<int> {
    if |s| >= 2 && s[0] == '-' && AllDigits(s[1..]) then Some(-(Value(s[1..]) as int))
    else if |s| >= 1 && AllDigits(s) then Some(Value(s))
    else None
  }

  /** `ReadInt` reads back every integer `IntToString` writes. */
  lemma ReadIntToString(n: int)
    ensures ReadInt(IntToString(n)) == Some(n)
  {
    IntToStringValue(n);
    if n < 0 {
      assert |NatToString(-n)| >= 1;
    }
  }

  /** `s.padStart(width, fill)` for a one-character `fill`: `s` itself when it is
      already `width` long, otherwise `s` preceded by as many `fill` characters
      as bring it to `width`. */
  function PadStart(s: string, width: nat, fill: char): (r: string)
    ensures |r| == if |s| >= width then |s| else width
    ensures r[|r| - |s|..] == s
    ensures forall i :: 0 <= i < |r| - |s| ==> r[i] == fill
  {
    if |s| >= width then s else seq(width - |s|, _ => fill) + s
  }

  /** `String(n).padStart(2, '0')`, the form of a month or a day in a date key. */
  function TwoDigits(n: nat): string {
    PadStart(NatToString(n), 2, '0')
  }

  /** Below 100 the padded form is exactly two digits and still denotes `n`. */
  lemma TwoDigitsValue(n: nat)
    requires n < 100
    ensures |TwoDigits(n)| == 2 && AllDigits(TwoDigits(n))
    ensures Value(TwoDigits(n)) == n
  {
    var s := TwoDigits(n);
    if n < 10 {
      assert NatToString(n) == [DigitChar(n)];
      assert s == ['0', DigitChar(n)];
      assert s[..1] == ['0'];
      assert Value(s[..1]) == 0;
    } else {
      NatToStringRoundTrip(n);
      assert s == NatToString(n);
    }
  }

  /** Padding keeps distinct months (and days) apart. */
  lemma TwoDigitsInjective(a: nat, b: nat)
    requires a < 100 && b < 100
    requires TwoDigits(a) == TwoDigits(b)
    ensures a == b
  {
    TwoDigitsValue(a);
    TwoDigitsValue(b);
  }
}
