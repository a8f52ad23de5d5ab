/** The text handling of the load-cell firmware: C strings, the sensor's
    reply line, its status, the weight field and the `H2 S<n>` command the
    firmware formats. Bytes are `char`s; a C string ends at the first NUL. */
module BridgeText {
  import opened Decimal

  const NUL: char := 0 as char

  /** The C string a buffer holds: everything before the first NUL. */
  function CStr(s: seq<char>): (c: seq<char>)
    ensures |c| <= |s| && c == s[..|c|]
    ensures NUL !in c
    ensures |c| < |s| ==> s[|c|] == NUL
  {
    if |s| == 0 || s[0] == NUL then []
    else
      var c := [s[0]] + CStr(s[1..]);
      assert c == s[..|c|];
      c
  }

  /** At most the first `n` characters. */
  function Truncate(s: seq<char>, n: nat): (t: seq<char>)
    ensures |t| == if |s| <= n then |s| else n
    ensures t == s[..|t|]
  {
    if |s| <= n then s else s[..n]
  }

  /** A buffer without a NUL is its own C string. */
  lemma CStrOfText(s: seq<char>)
    requires NUL !in s
    ensures CStr(s) == s
  {
  }

  /** `p` occurs in `s` starting at index `i`. */
  predicate OccursAt(s: seq<char>, p: seq<char>, i: nat) {
    i + |p| <= |s| && s[i..i + |p|] == p
  }

  /** `strstr(s, p) != NULL`. */
  predicate Contains(s: seq<char>, p: seq<char>) {
    exists i: nat | i <= |s| :: OccursAt(s, p, i)
  }

  // ------------------------------------------------------------ reply line

  /** Receiver capacity less the terminating NUL: the longest line kept. */
  const MAX_LINE: nat := 63

  predicate IsBreak(c: char) {
    c == '\r' || c == '\n'
  }

  /** The received bytes without line breaks. */
  function DropBreaks(s: seq<char>): (t: seq<char>)
    ensures |t| <= |s|
    ensures forall i :: 0 <= i < |t| ==> !IsBreak(t[i])
  {
    if |s| == 0 then []
    else if IsBreak(s[0]) then DropBreaks(s[1..])
    else [s[0]] + DropBreaks(s[1..])
  }

  /** The line `process_received_line` assembles from the bytes between
      `rx_tail` and `rx_head`: line breaks dropped, at most 63 kept. */
  function LineOf(bytes: seq<char>): (line: seq<char>)
    ensures |line| <= MAX_LINE
    ensures forall i :: 0 <= i < |line| ==> !IsBreak(line[i])
  {
    Truncate(DropBreaks(bytes), MAX_LINE)
  }

  /** Bytes without breaks that fit come through as they are. */
  lemma {:induction false} LineOfPlainText(s: seq<char>)
    requires |s| <= MAX_LINE && forall i :: 0 <= i < |s| ==> !IsBreak(s[i])
    ensures LineOf(s) == s
  {
    PlainTextKept(s);
  }

  lemma {:induction false} PlainTextKept(s: seq<char>)
    requires forall i :: 0 <= i < |s| ==> !IsBreak(s[i])
    ensures DropBreaks(s) == s
  {
    if |s| > 0 {
      PlainTextKept(s[1..]);
    }
  }

  /** A line terminator adds nothing to the line. */
  lemma {:induction false} BreaksDropped(s: seq<char>, t: seq<char>)
    requires forall i :: 0 <= i < |t| ==> IsBreak(t[i])
    ensures DropBreaks(s + t) == DropBreaks(s)
  {
    if |s| == 0 {
      assert s + t == t;
      AllBreaks(t);
    } else {
      assert (s + t)[1..] == s[1..] + t;
      BreaksDropped(s[1..], t);
    }
  }

  lemma {:induction false} AllBreaks(t: seq<char>)
    requires forall i :: 0 <= i < |t| ==> IsBreak(t[i])
    ensures DropBreaks(t) == []
  {
    if |t| > 0 {
      AllBreaks(t[1..]);
    }
  }

  /** The status the firmware reports for a line: "ok" exactly when "ok."
      occurs in it (up to its first NUL), "error" otherwise. */
  function Status(line: seq<char>): (s: string)
    ensures s == "ok" <==> Contains(CStr(line), "ok.")
    ensures s == "ok" || s == "error"
  {
    if Contains(CStr(line), "ok.") then "ok" else "error"
  }

  /** In a line without a NUL the status reads the whole line: "ok"
      exactly when "ok." occurs anywhere in it. */
  lemma StatusOfText(line: seq<char>)
    requires NUL !in line
    ensures Status(line) == "ok" <==> Contains(line, "ok.")
  {
    CStrOfText(line);
  }

  /** Nothing after a NUL counts: an "ok." behind it is not seen. */
  lemma StatusStopsAtNul(a: seq<char>, b: seq<char>)
    requires NUL !in a
    ensures Status(a + [NUL] + b) == Status(a)
  {
    CStrAtNul(a, b);
    CStrOfText(a);
  }

  lemma {:induction false} CStrAtNul(a: seq<char>, b: seq<char>)
    requires NUL !in a
    ensures CStr(a + [NUL] + b) == a
  {
    if |a| > 0 {
      assert (a + [NUL] + b)[1..] == a[1..] + [NUL] + b;
      CStrAtNul(a[1..], b);
    }
  }

  /** An "ok." that arrives after 63 kept characters is cut off with the
      rest of the line, so the reply counts as an error. */
  lemma OkBeyondCut(s: seq<char>)
    requires |s| == MAX_LINE && NUL !in s && !Contains(s, "ok.")
    requires forall i :: 0 <= i < |s| ==> !IsBreak(s[i])
    ensures Status(LineOf(s + "ok.")) == "error"
  {
    var t := s + "ok.";
    assert forall i :: 0 <= i < |t| ==> !IsBreak(t[i]) by {
      forall i | 0 <= i < |t|
        ensures !IsBreak(t[i])
      {
        if i < |s| {
          assert t[i] == s[i];
        }
      }
    }
    PlainTextKept(t);
    assert LineOf(t) == s;
    CStrOfText(s);
  }

  // ---------------------------------------------------------- weight field

  /** Length of the leading run of non-space characters. */
  function WordLength(s: seq<char>): (k: nat)
    ensures k <= |s|
    ensures forall i :: 0 <= i < k ==> s[i] != ' '
    ensures k < |s| ==> s[k] == ' '
  {
    if |s| == 0 || s[0] == ' ' then 0 else 1 + WordLength(s[1..])
  }

  /** The tokens `strtok_r` with delimiter " " returns, in order. */
  function Tokens(s: seq<char>): (ts: seq<seq<char>>)
    ensures forall j :: 0 <= j < |ts| ==> |ts[j]| > 0 && ' ' !in ts[j]
    decreases |s|
  {
    if |s| == 0 then []
    else if s[0] == ' ' then Tokens(s[1..])
    else
      var k := WordLength(s);
      [s[..k]] + Tokens(s[k..])
  }

  /** The token after its optional sign. */
  function Unsigned(t: seq<char>): seq<char> {
    if |t| > 0 && (t[0] == '-' || t[0] == '+') then t[1..] else t
  }

  /** No digit follows the token's optional sign. */
  predicate NoDigitAfterSign(t: seq<char>) {
    |Unsigned(t)| == 0 || !IsDigit(Unsigned(t)[0])
  }

  /** The token starts with the numeral of `v`, followed by its end or by a
      non-digit. */
  predicate StartsWithNumeral(t: seq<char>, v: int) {
    var n := SignedNumeral(v);
    && |n| <= |t| && t[..|n|] == n
    && (|n| == |t| || !IsDigit(t[|n|]))
  }

  /** The token is an optional sign `sg`, then a run of digits `d`, then a
      `rest` that does not start with a digit. Leading zeros, a '+' and "-0"
      are all of this form. */
  predicate SignedDecimal(t: seq<char>, sg: seq<char>, d: seq<char>, rest: seq<char>) {
    && (sg == "" || sg == "+" || sg == "-")
    && |d| > 0 && AllDigits(d)
    && (|rest| == 0 || !IsDigit(rest[0]))
    && t == sg + d + rest
  }

  /** The number a sign and a run of digits denote. */
  function SignedValue(sg: seq<char>, d: seq<char>): int
    requires AllDigits(d)
  {
    if sg == "-" then -(Value(d) as int) else Value(d)
  }

  /** The leading signed decimal of a token: an optional sign, then digits up
      to the first non-digit; 0 when no digit follows the sign. */
  function SignedPrefix(t: seq<char>): int {
    var neg := |t| > 0 && t[0] == '-';
    var body := Unsigned(t);
    var k := DigitRunLength(body);
    if k == 0 then 0
    else if neg then -(Value(body[..k]) as int) else Value(body[..k])
  }

  /** `parse_weight_from_response`: the fifth space-separated token of the
      line (cut at its NUL and at 63 characters) read as a signed decimal. A
      missing field or a field without digits reads 0; a field that starts
      with the numeral of `v` reads `v`. The digit accumulation uses
      unbounded integers. */
  function ParseWeight(line: seq<char>): (w: int)
    ensures var ts := Tokens(Truncate(CStr(line), MAX_LINE));
      && (|ts| < 5 ==> w == 0)
      && (|ts| >= 5 && NoDigitAfterSign(ts[4]) ==> w == 0)
      && (|ts| >= 5 ==> forall v :: StartsWithNumeral(ts[4], v) ==> w == v)
      && (|ts| >= 5 ==> forall sg, d, rest :: SignedDecimal(ts[4], sg, d, rest) ==> w == SignedValue(sg, d))
  {
    var ts := Tokens(Truncate(CStr(line), MAX_LINE));
    if |ts| < 5 then 0
    else
      NumeralRead(ts[4]);
      SignedDecimalRead(ts[4]);
      NoDigitNoWeight(ts[4]);
      SignedPrefix(ts[4])
  }

  /** A token without a digit after its optional sign reads as 0. */
  lemma NoDigitNoWeight(t: seq<char>)
    ensures NoDigitAfterSign(t) ==> SignedPrefix(t) == 0
  {
  }

  /** A token starting with a numeral reads as that numeral's value. */
  lemma NumeralRead(t: seq<char>)
    ensures forall v :: StartsWithNumeral(t, v) ==> SignedPrefix(t) == v
  {
    forall v | StartsWithNumeral(t, v)
      ensures SignedPrefix(t) == v
    {
      var n := SignedNumeral(v);
      var rest := t[|n|..];
      assert t == n + rest;
      SignedPrefixOfNumeral(v, rest);
    }
  }

  /** A token made of a sign, digits and a non-digit rest reads as the
      signed value of its digits, whatever zeros lead them. */
  lemma SignedDecimalRead(t: seq<char>)
    ensures forall sg, d, rest :: SignedDecimal(t, sg, d, rest) ==> SignedPrefix(t) == SignedValue(sg, d)
  {
    forall sg, d, rest | SignedDecimal(t, sg, d, rest)
      ensures SignedPrefix(t) == SignedValue(sg, d)
    {
      SignedDecimalReadOne(t, sg, d, rest);
    }
  }

  lemma SignedDecimalReadOne(t: seq<char>, sg: seq<char>, d: seq<char>, rest: seq<char>)
    requires SignedDecimal(t, sg, d, rest)
    ensures SignedPrefix(t) == SignedValue(sg, d)
  {
    if sg == "" {
      assert t == d + rest;
      UnsignedPrefix(d, rest);
    } else {
      SignedDigitsRead(sg, d, rest);
    }
  }

  /** The signed cases of `SignedDecimalRead`. */
  lemma SignedDigitsRead(sg: seq<char>, d: seq<char>, rest: seq<char>)
    requires sg == "+" || sg == "-"
    requires |d| > 0 && AllDigits(d)
    requires |rest| == 0 || !IsDigit(rest[0])
    ensures SignedPrefix(sg + d + rest) == SignedValue(sg, d)
  {
    var t := sg + d + rest;
    assert t[1..] == d + rest;
    assert t[1] == d[0];
    UnsignedPrefix(d, rest);
    if sg == "-" {
      MinusPrefix(t);
    } else {
      PlusPrefix(t);
    }
  }

  /** Every token with a digit after its optional sign splits as a
      `SignedDecimal`, so no field is left without a stated weight. */
  lemma SignedDecimalSplit(t: seq<char>)
    requires !NoDigitAfterSign(t)
    ensures exists sg, d, rest :: SignedDecimal(t, sg, d, rest)
  {
    var body := Unsigned(t);
    var k := DigitRunLength(body);
    assert k > 0;
    var d, rest := body[..k], body[k..];
    assert body == d + rest;
    if |t| > 0 && (t[0] == '-' || t[0] == '+') {
      var sg := [t[0]];
      assert t == sg + d + rest;
      assert SignedDecimal(t, sg, d, rest);
    } else {
      assert t == [] + d + rest;
      assert SignedDecimal(t, [], d, rest);
    }
  }

  /** A numeral followed by anything but a digit reads back as its value. */
  lemma SignedPrefixOfNumeral(v: int, rest: seq<char>)
    requires |rest| == 0 || !IsDigit(rest[0])
    ensures SignedPrefix(SignedNumeral(v) + rest) == v
  {
    if v < 0 {
      assert SignedNumeral(v) == "-" + Digits(-v);
      NegativePrefix(-v, rest);
    } else {
      assert SignedNumeral(v) == Digits(v);
      ValueOfDigits(v);
      UnsignedPrefix(Digits(v), rest);
    }
  }

  /** The numeral of a negative number, in front of a non-digit. */
  lemma NegativePrefix(m: nat, rest: seq<char>)
    requires m > 0
    requires |rest| == 0 || !IsDigit(rest[0])
    ensures SignedPrefix("-" + Digits(m) + rest) == -(m as int)
  {
    var s := "-" + Digits(m) + rest;
    assert s[1..] == Digits(m) + rest;
    ValueOfDigits(m);
    UnsignedPrefix(Digits(m), rest);
    MinusPrefix(s);
  }

  /** Digits in front of a non-digit read as their value. */
  lemma UnsignedPrefix(d: seq<char>, rest: seq<char>)
    requires AllDigits(d) && |d| > 0
    requires |rest| == 0 || !IsDigit(rest[0])
    ensures SignedPrefix(d + rest) == Value(d)
  {
    DigitRunPrefix(d, rest);
    assert (d + rest)[0] == d[0];
    assert (d + rest)[..|d|] == d;
  }

  /** A minus sign in front of a digit negates what follows it. */
  lemma MinusPrefix(t: seq<char>)
    requires |t| > 1 && t[0] == '-' && IsDigit(t[1])
    ensures SignedPrefix(t) == -SignedPrefix(t[1..])
  {
    assert t[1..][0] == t[1];
  }

  /** A plus sign in front of a digit changes nothing. */
  lemma PlusPrefix(t: seq<char>)
    requires |t| > 1 && t[0] == '+' && IsDigit(t[1])
    ensures SignedPrefix(t) == SignedPrefix(t[1..])
  {
    assert t[1..][0] == t[1];
  }

  /** A word followed by a space or the end is the next token. */
  lemma {:induction false} TokensOfWord(w: seq<char>, t: seq<char>)
    requires |w| > 0 && ' ' !in w
    requires |t| == 0 || t[0] == ' '
    ensures Tokens(w + t) == [w] + Tokens(t)
  {
    var s := w + t;
    WordOf(w, t);
    assert s[..|w|] == w && s[|w|..] == t;
  }

  lemma {:induction false} WordOf(w: seq<char>, t: seq<char>)
    requires ' ' !in w
    requires |t| == 0 || t[0] == ' '
    ensures WordLength(w + t) == |w|
  {
    if |w| > 0 {
      assert (w + t)[1..] == w[1..] + t;
      WordOf(w[1..], t);
    } else {
      assert w + t == t;
    }
  }

  /** Fields each followed by one space. */
  function Fields(ws: seq<seq<char>>): seq<char> {
    if |ws| == 0 then [] else ws[0] + " " + Fields(ws[1..])
  }

  predicate IsWord(w: seq<char>) {
    |w| > 0 && ' ' !in w && NUL !in w
  }

  /** Space-separated fields come back as the tokens, in order. */
  lemma {:induction false} TokensOfFields(ws: seq<seq<char>>, t: seq<char>)
    requires forall j :: 0 <= j < |ws| ==> IsWord(ws[j])
    requires |t| == 0 || t[0] != ' '
    ensures Tokens(Fields(ws) + t) == ws + Tokens(t)
  {
    if |ws| == 0 {
      assert Fields(ws) + t == t;
    } else {
      var tail := ws[1..];
      var rest := Fields(tail) + t;
      FieldsCons(ws, t);
      assert IsWord(ws[0]);
      TokensOfWord(ws[0], " " + rest);
      TokensAfterSpace(rest);
      forall j | 0 <= j < |tail|
        ensures IsWord(tail[j])
      {
        assert tail[j] == ws[j + 1];
      }
      TokensOfFields(tail, t);
      assert Tokens(Fields(ws) + t) == [ws[0]] + (tail + Tokens(t));
      ConsSplit(ws, Tokens(t));
    }
  }

  lemma ConsSplit<T>(s: seq<T>, u: seq<T>)
    requires |s| > 0
    ensures [s[0]] + (s[1..] + u) == s + u
  {
  }

  lemma FieldsCons(ws: seq<seq<char>>, t: seq<char>)
    requires |ws| > 0
    ensures Fields(ws) + t == ws[0] + (" " + (Fields(ws[1..]) + t))
  {
  }

  lemma TokensAfterSpace(rest: seq<char>)
    ensures Tokens(" " + rest) == Tokens(rest)
  {
    assert (" " + rest)[1..] == rest;
  }

  /** Round trip of the weight field: a line whose fifth field is the numeral
      of `v`, followed by a space or the end, parses to `v`. */
  lemma ParseWeightOfLine(ws: seq<seq<char>>, v: int, rest: seq<char>)
    requires |ws| == 4 && forall j :: 0 <= j < 4 ==> IsWord(ws[j])
    requires |rest| == 0 || rest[0] == ' '
    requires NUL !in rest
    requires |Fields(ws) + SignedNumeral(v) + rest| <= MAX_LINE
    ensures ParseWeight(Fields(ws) + SignedNumeral(v) + rest) == v
  {
    var num := SignedNumeral(v);
    var line := Fields(ws) + num + rest;
    FieldsHaveNoNul(ws);
    assert NUL !in line;
    CStrOfText(line);
    assert Truncate(CStr(line), MAX_LINE) == line;
    FifthToken(ws, num, rest);
    SignedPrefixOfNumeral(v, []);
    assert num + [] == num;
  }

  /** After four fields, a word followed by a space or the end is the fifth
      token. */
  lemma FifthToken(ws: seq<seq<char>>, num: seq<char>, rest: seq<char>)
    requires |ws| == 4 && forall j :: 0 <= j < 4 ==> IsWord(ws[j])
    requires |num| > 0 && ' ' !in num
    requires |rest| == 0 || rest[0] == ' '
    ensures |Tokens(Fields(ws) + num + rest)| >= 5
    ensures Tokens(Fields(ws) + num + rest)[4] == num
  {
    assert Fields(ws) + num + rest == Fields(ws) + (num + rest);
    TokensOfFields(ws, num + rest);
    TokensOfWord(num, rest);
    assert (ws + ([num] + Tokens(rest)))[4] == num;
  }

  lemma {:induction false} FieldsHaveNoNul(ws: seq<seq<char>>)
    requires forall j :: 0 <= j < |ws| ==> IsWord(ws[j])
    ensures NUL !in Fields(ws)
  {
    if |ws| > 0 {
      FieldsHaveNoNul(ws[1..]);
    }
  }

  // ------------------------------------------------------------ H2 command

  /** The command text `command_flashforge_loadcell_h2` sends. */
  function H2Text(weight: nat): string {
    "H2 S" + Digits(weight)
  }

  function Reverse(s: seq<char>): (r: seq<char>)
    ensures |r| == |s|
    ensures forall i :: 0 <= i < |s| ==> r[i] == s[|s| - 1 - i]
  {
    seq(|s|, i requires 0 <= i < |s| => s[|s| - 1 - i])
  }

  /** A 32-bit value has at most ten decimal digits. */
  lemma DigitsOfWord(n: nat)
    requires n < 0x1_0000_0000
    ensures |Digits(n)| <= 10
  {
    assert Pow10(10) == 10000000000;
    DigitsBound(n, 10);
  }

  /** Writes the digits of `n` into `buf` from index `from`, least
      significant first, while the index stays below `limit`. */
  method LowDigitsFirst(buf: array<char>, from: nat, limit: nat, n: nat) returns (p: nat)
    requires n > 0 && from + |Digits(n)| <= limit <= buf.Length
    modifies buf
    ensures p == from + |Digits(n)|
    ensures Reverse(buf[from..p]) == Digits(n)
    ensures forall i :: 0 <= i < from ==> buf[i] == old(buf[i])
  {
    p := from;
    var m := n;
    while m > 0 && p < limit
      invariant from <= p <= limit
      invariant (if m > 0 then Digits(m) else []) + Reverse(buf[from..p]) == Digits(n)
      invariant m > 0 ==> p + |Digits(m)| <= limit
      invariant forall i :: 0 <= i < from ==> buf[i] == old(buf[i])
      decreases m
    {
      ghost var written := buf[from..p];
      var d := DigitChar(m % 10);
      buf[p] := d;
      assert buf[from..p + 1] == written + [d];
      DigitStep(m, written);
      m := m / 10;
      p := p + 1;
    }
  }

  /** Moving the last digit of `m` from the numeral to the reversed
      output keeps their concatenation. */
  lemma DigitStep(m: nat, written: seq<char>)
    requires m > 0
    ensures (if m / 10 > 0 then Digits(m / 10) else []) + Reverse(written + [DigitChar(m % 10)])
            == Digits(m) + Reverse(written)
    ensures |Digits(m)| == 1 + (if m / 10 > 0 then |Digits(m / 10)| else 0)
  {
    ReverseSnoc(written, DigitChar(m % 10));
    LastDigit(m);
  }

  lemma ReverseSnoc(s: seq<char>, d: char)
    ensures Reverse(s + [d]) == [d] + Reverse(s)
  {
  }

  lemma ReverseReverse(s: seq<char>)
    ensures Reverse(Reverse(s)) == s
  {
  }

  /** The numeral of `m` is that of `m / 10` (nothing when it is 0) and the
      last digit. */
  lemma LastDigit(m: nat)
    requires m > 0
    ensures Digits(m) == (if m / 10 > 0 then Digits(m / 10) else []) + [DigitChar(m % 10)]
  {
  }

  /** Reverses `buf[lo..hi]` in place by swapping from both ends. */
  method ReverseInPlace(buf: array<char>, lo: nat, hi: nat)
    requires lo < hi <= buf.Length
    modifies buf
    ensures buf[lo..hi] == Reverse(old(buf[lo..hi]))
    ensures forall i :: 0 <= i < lo ==> buf[i] == old(buf[i])
  {
    ghost var run := buf[lo..hi];
    var s, e := lo, hi - 1;
    while s < e
      invariant lo <= s && e < hi && s - lo == hi - 1 - e
      invariant forall i :: 0 <= i < lo ==> buf[i] == old(buf[i])
      invariant forall i :: lo <= i < hi && (i < s || i > e) ==> buf[i] == run[hi - 1 - i]
      invariant forall i :: s <= i <= e ==> buf[i] == run[i - lo]
      decreases e - s
    {
      buf[s], buf[e] := buf[e], buf[s];
      s := s + 1;
      e := e - 1;
    }
    assert buf[lo..hi] == Reverse(run);
  }

  /** The formatting of `command_flashforge_loadcell_h2`: "H2 S", the digits
      written least significant first while the 32-byte buffer has room,
      then that run reversed in place. */
  method FormatH2(weight: nat) returns (cmd: string)
    requires weight < 0x1_0000_0000
    ensures cmd == H2Text(weight)
    ensures |cmd| == 4 + |Digits(weight)| && |cmd| <= 14
    ensures Value(cmd[4..]) == weight
  {
    var buf := new char[32];
    buf[0], buf[1], buf[2], buf[3] := 'H', '2', ' ', 'S';
    assert buf[..4] == "H2 S";
    var p := WriteWeight(buf, weight);
    cmd := buf[..p];
    assert cmd == buf[..4] + buf[4..p];
    ValueOfDigits(weight);
  }

  /** The numeral of `weight` written from index 4 of the 32-byte buffer. */
  method WriteWeight(buf: array<char>, weight: nat) returns (p: nat)
    requires buf.Length == 32 && weight < 0x1_0000_0000
    modifies buf
    ensures p == 4 + |Digits(weight)| && p <= 14
    ensures buf[4..p] == Digits(weight)
    ensures buf[..4] == old(buf[..4])
  {
    DigitsOfWord(weight);
    if weight == 0 {
      buf[4] := '0';
      p := 5;
    } else {
      p := LowDigitsFirst(buf, 4, 31, weight);
      ReverseInPlace(buf, 4, p);
      ReverseReverse(Digits(weight));
    }
  }
}
