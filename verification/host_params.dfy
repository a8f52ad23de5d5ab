/** The parameter dictionary the host receives with each MCU message, and the
    two conversions both host modules apply to its entries: the text decoding
    with a fallback (`_decode`) and Python's `int()` on a single value. The
    same `int()` reads the text of a gcode command's integer parameters. */
module HostParams {
  import opened Results
  import Decimal

  /** One entry of a message's parameter dict, by the Python type it has. */
  datatype Field =
    | Null                         // None
    | Int(n: int)                  // an int, as `%i`/`%u` parameters arrive
    | Str(s: string)               // a str
    | Bytes(utf8: Option<string>)  // a bytes object (`%s` parameters) with its UTF-8 decoding; None when invalid
    | Other                        // any other object: it has no `decode` and `int()` rejects it

  type Params = map<string, Field>

  /** `params.get(key)`: a missing key reads as None. */
  function Get(p: Params, key: string): Field {
    if key in p then p[key] else Null
  }

  /** `_decode(value, default)`: None and undecodable values give `default`. */
  function DecodeText(f: Field, default: string): (r: string)
    ensures f.Null? || f.Int? || f.Other? || f == Bytes(None) ==> r == default
    ensures r != default ==> f == Str(r) || f == Bytes(Some(r))
  {
    match f
    case Str(s) => s
    case Bytes(Some(s)) => s
    case _ => default
  }

  /** The whitespace `int()` strips from both ends (ASCII subset). */
  predicate IsSpace(c: char) {
    c == ' ' || c == '\t' || c == '\n' || c == '\r' || c as int == 11 || c as int == 12
  }

  function TrimStart(s: string): (t: string)
    ensures |t| <= |s| && t == s[|s| - |t|..]
    ensures |t| > 0 ==> !IsSpace(t[0])
  {
    if |s| > 0 && IsSpace(s[0]) then TrimStart(s[1..]) else s
  }

  function TrimEnd(s: string): (t: string)
    ensures |t| <= |s| && t == s[..|t|]
    ensures |t| > 0 ==> !IsSpace(t[|t| - 1])
  {
    if |s| > 0 && IsSpace(s[|s| - 1]) then TrimEnd(s[..|s| - 1]) else s
  }

  /** Digits with single underscores between them, as `int()` accepts. */
  predicate DigitGroups(s: string) {
    && |s| > 0
    && Decimal.IsDigit(s[0])
    && Decimal.IsDigit(s[|s| - 1])
    && (forall i :: 0 <= i < |s| ==> Decimal.IsDigit(s[i]) || s[i] == '_')
    && (forall i :: 0 <= i < |s| - 1 && s[i] == '_' ==> s[i + 1] != '_')
  }

  function StripUnderscores(s: string): (d: string)
    requires forall i :: 0 <= i < |s| ==> Decimal.IsDigit(s[i]) || s[i] == '_'
    ensures Decimal.AllDigits(d)
  {
    if |s| == 0 then []
    else if s[0] == '_' then StripUnderscores(s[1..])
    else [s[0]] + StripUnderscores(s[1..])
  }

  /** `int(text)` for base 10: optional whitespace, an optional sign, digit groups. */
  function ParseIntLiteral(s: string): (r: Option<int>)
    ensures (forall i :: 0 <= i < |s| ==> IsSpace(s[i])) ==> r.None?
    ensures r.Some? && r.value < 0 ==> '-' in s
  {
    var t := TrimEnd(TrimStart(s));
    if |t| == 0 then None
    else
      var neg := t[0] == '-';
      var body := if t[0] == '-' || t[0] == '+' then t[1..] else t;
      if DigitGroups(body) then
        var v: int := Decimal.Value(StripUnderscores(body));
        Some(if neg then -v else v)
      else None
  }

  /** `int(value)`, None standing for the ValueError/TypeError it raises. */
  function PyInt(f: Field): (r: Option<int>)
    ensures f.Int? ==> r == Some(f.n)
    ensures f.Null? || f.Other? ==> r.None?
    ensures f.Str? || f.Bytes? ==> r == ParseIntLiteral(DecodeText(f, ""))
  {
    match f
    case Int(n) => Some(n)
    case Str(s) => ParseIntLiteral(s)
    case Bytes(Some(s)) => ParseIntLiteral(s)
    case _ => None
  }

  lemma {:induction false} StripUnderscoresOfDigits(d: string)
    requires Decimal.AllDigits(d)
    ensures StripUnderscores(d) == d
  {
    if |d| > 0 {
      StripUnderscoresOfDigits(d[1..]);
    }
  }

  lemma DigitsAreGroups(d: string)
    requires Decimal.AllDigits(d) && |d| > 0
    ensures DigitGroups(d)
  {
  }

  /** `int()` reads a signed numeral back as the number it was written from. */
  lemma ParseSignedNumeral(v: int)
    ensures ParseIntLiteral(Decimal.SignedNumeral(v)) == Some(v)
  {
    var d := Decimal.Digits(if v < 0 then -v else v);
    Decimal.ValueOfDigits(if v < 0 then -v else v);
    if v < 0 {
      assert ("-" + d)[1..] == d;
      ParseNegative("-" + d);
    } else {
      ParseUnsigned(d);
    }
  }

  /** A run of digits is read as its value. */
  lemma ParseUnsigned(d: string)
    requires Decimal.AllDigits(d) && |d| > 0
    ensures ParseIntLiteral(d) == Some(Decimal.Value(d))
  {
    DigitsAreGroups(d);
    StripUnderscoresOfDigits(d);
    NoSpaceTrimmed(d);
  }

  /** A minus sign before a run of digits negates its value. */
  lemma ParseNegative(s: string)
    requires |s| > 1 && s[0] == '-' && Decimal.AllDigits(s[1..])
    ensures ParseIntLiteral(s) == Some(-(Decimal.Value(s[1..]) as int))
  {
    assert s[1..][|s| - 2] == s[|s| - 1];
    NoSpaceTrimmed(s);
    DigitsAreGroups(s[1..]);
    StripUnderscoresOfDigits(s[1..]);
  }

  /** Text that neither starts nor ends with whitespace is left as it is. */
  lemma NoSpaceTrimmed(s: string)
    requires |s| > 0 && !IsSpace(s[0]) && !IsSpace(s[|s| - 1])
    ensures TrimEnd(TrimStart(s)) == s
  {
  }

  /** Text holding a character that is no digit, sign, underscore or
      whitespace is never an integer. */
  lemma RejectsForeignCharacter(s: string, i: nat)
    requires i < |s|
    requires !Decimal.IsDigit(s[i]) && !IsSpace(s[i]) && s[i] !in "+-_"
    ensures ParseIntLiteral(s) == None
  {
    TrimKeeps(s, i);
  }

  /** A non-space character survives trimming. */
  lemma TrimKeeps(s: string, i: nat)
    requires i < |s| && !IsSpace(s[i])
    ensures s[i] in TrimEnd(TrimStart(s))
  {
    TrimStartKeeps(s, i);
    var j :| 0 <= j < |TrimStart(s)| && TrimStart(s)[j] == s[i];
    TrimEndKeeps(TrimStart(s), j);
  }

  lemma {:induction false} TrimStartKeeps(s: string, i: nat)
    requires i < |s| && !IsSpace(s[i])
    ensures exists j :: 0 <= j < |TrimStart(s)| && TrimStart(s)[j] == s[i]
  {
    if |s| > 0 && IsSpace(s[0]) {
      assert s[1..][i - 1] == s[i];
      TrimStartKeeps(s[1..], i - 1);
      assert TrimStart(s) == TrimStart(s[1..]);
    } else {
      assert TrimStart(s)[i] == s[i];
    }
  }

  lemma {:induction false} TrimEndKeeps(s: string, i: nat)
    requires i < |s| && !IsSpace(s[i])
    ensures s[i] in TrimEnd(s)
  {
    if |s| > 0 && IsSpace(s[|s| - 1]) {
      TrimEndKeeps(s[..|s| - 1], i);
    }
  }
}
