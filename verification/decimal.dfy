/** Decimal numerals over ASCII digits: the digit run a parser reads and the
    numeral a formatter writes, shared by the firmware and the host side. */
module Decimal {

  predicate IsDigit(c: char) {
    '0' <= c <= '9'
  }

  function DigitValue(c: char): (d: nat)
    requires IsDigit(c)
    ensures d < 10
  {
    c as int - '0' as int
  }

  function DigitChar(d: nat): (c: char)
    requires d < 10
    ensures IsDigit(c) && DigitValue(c) == d
  {
    ('0' as int + d) as char
  }

  predicate AllDigits(s: seq<char>) {
    forall i :: 0 <= i < |s| ==> IsDigit(s[i])
  }

  /** The number a run of digits denotes, most significant digit first. */
  function Value(s: seq<char>): nat
    requires AllDigits(s)
  {
    if |s| == 0 then 0 else Value(s[..|s| - 1]) * 10 + DigitValue(s[|s| - 1])
  }

  /** The numeral of `n` without leading zeros ("0" for zero). */
  function Digits(n: nat): (s: seq<char>)
    ensures AllDigits(s) && 1 <= |s|
    ensures s[0] == '0' <==> n == 0
  {
    if n < 10 then [DigitChar(n)] else Digits(n / 10) + [DigitChar(n % 10)]
  }

  /** The decimal numeral of `v`, with '-' before a negative number: how the
      sensor writes the weight field of its reply line. */
  function SignedNumeral(v: int): (s: seq<char>)
    ensures |s| > 0 && ' ' !in s && 0 as char !in s
  {
    if v < 0 then "-" + Digits(-v) else Digits(v)
  }

  function Pow10(k: nat): (p: nat)
    ensures p >= 1
  {
    if k == 0 then 1 else 10 * Pow10(k - 1)
  }

  /** Length of the longest prefix of `s` made of digits. */
  function DigitRunLength(s: seq<char>): (k: nat)
    ensures k <= |s| && AllDigits(s[..k])
    ensures k < |s| ==> !IsDigit(s[k])
  {
    if |s| == 0 || !IsDigit(s[0]) then 0
    else
      var k := 1 + DigitRunLength(s[1..]);
      assert s[..k] == [s[0]] + s[1..][..k - 1];
      k
  }

  /** Reading back what `Digits` writes gives the number again. */
  lemma {:induction false} ValueOfDigits(n: nat)
    ensures Value(Digits(n)) == n
  {
    if n >= 10 {
      var s := Digits(n);
      assert s[..|s| - 1] == Digits(n / 10);
      ValueOfDigits(n / 10);
    }
  }

  /** A numeral below 10^k has at most k digits. */
  lemma {:induction false} DigitsBound(n: nat, k: nat)
    requires 1 <= k && n < Pow10(k)
    ensures |Digits(n)| <= k
  {
    if n >= 10 {
      assert k >= 2;
      assert n / 10 < Pow10(k - 1);
      DigitsBound(n / 10, k - 1);
    }
  }

  /** A digit parser stopping at the first non-digit reads exactly the numeral
      written in front of it. */
  lemma DigitRunOfNumeral(n: nat, t: seq<char>)
    requires |t| == 0 || !IsDigit(t[0])
    ensures DigitRunLength(Digits(n) + t) == |Digits(n)|
    ensures (Digits(n) + t)[..|Digits(n)|] == Digits(n)
  {
    DigitRunPrefix(Digits(n), t);
  }

  lemma {:induction false} DigitRunPrefix(d: seq<char>, t: seq<char>)
    requires AllDigits(d)
    requires |t| == 0 || !IsDigit(t[0])
    ensures DigitRunLength(d + t) == |d|
  {
    if |d| > 0 {
      assert (d + t)[1..] == d[1..] + t;
      DigitRunPrefix(d[1..], t);
    } else {
      assert d + t == t;
    }
  }
}
