/** Decimal text of an integer, as Swift's string interpolation `"\(n)"`
    writes it: an optional minus sign and the digits, most significant first,
    with no leading zeros. */
module Decimal {
  import opened Basics
  import Utf8

  predicate IsDigit(c: char) {
    '0' <= c <= '9'
  }

  predicate AllDigits(s: string) {
    forall i :: 0 <= i < |s| ==> IsDigit(s[i])
  }

  function DigitChar(d: nat): (c: char)
    requires d < 10
    ensures IsDigit(c) && c as int - '0' as int == d
  {
    ('0' as int + d) as char
  }

  /** The digits of n. */
  function Digits(n: nat): (r: string)
    ensures |r| >= 1 && AllDigits(r)
    ensures |r| == 1 <==> n < 10
  {
    if n < 10 then [DigitChar(n)] else Digits(n / 10) + [DigitChar(n % 10)]
  }

  /** `"\(n)"`. */
  function Text(n: int): (r: string)
    ensures |r| == 1 <==> 0 <= n <= 9
    ensures Utf8.IsAscii(r)
  {
    if n < 0 then "-" + Digits(-n) else Digits(n)
  }

  /** The number a non-empty run of digits denotes. */
  function DigitsValue(s: string): nat
    requires AllDigits(s)
  {
    if s == [] then 0 else DigitsValue(s[..|s| - 1]) * 10 + (s[|s| - 1] as int - '0' as int)
  }

  /** How a reader of the text (the game server) recovers the number:
      an optional minus sign followed by at least one digit. */
  function Read(t: string): Option<int> {
    if |t| > 1 && t[0] == '-' && AllDigits(t[1..]) then Some(0 - DigitsValue(t[1..]) as int)
    else if |t| > 0 && AllDigits(t) then Some(DigitsValue(t))
    else None
  }

  lemma {:induction false} DigitsValueOfDigits(n: nat)
    ensures DigitsValue(Digits(n)) == n
  {
    if n >= 10 {
      var d := Digits(n);
      assert d[..|d| - 1] == Digits(n / 10);
      DigitsValueOfDigits(n / 10);
    }
  }

  /** Round trip: reading back `"\(n)"` gives n, for every integer n. */
  lemma ReadText(n: int)
    ensures Read(Text(n)) == Some(n)
  {
    var t := Text(n);
    if n < 0 {
      assert t == "-" + Digits(-n);
      assert t[0] == '-' && t[1..] == Digits(-n);
      assert !AllDigits(t) by { assert !IsDigit(t[0]); }
      assert |t| > 1 && AllDigits(t[1..]);
      DigitsValueOfDigits(-n);
      assert Read(t) == Some(0 - DigitsValue(t[1..]) as int);
    } else {
      assert t == Digits(n);
      DigitsValueOfDigits(n);
      assert Read(t) == Some(DigitsValue(t)) by {
        assert !(t[0] == '-') by { assert IsDigit(t[0]); }
      }
    }
  }
}
