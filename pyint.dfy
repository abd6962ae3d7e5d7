/** Python's `int(text)` and `str(n)` in base 10. Only the ASCII digits
    `0`-`9` are modelled as digits. */
module PyInt {
  import opened Wrappers
  import opened PyStr

  function DigitValue(c: char): (d: nat)
    requires IsDigit(c)
    ensures d < 10
  {
    c as int - '0' as int
  }

  function DigitChar(d: nat): (c: char)
    requires d < 10
    ensures IsDigit(c) && DigitValue(c) == d
  {
    ('0' as int + d) as char
  }

  predicate AllDigits(s: string) {
    forall i :: 0 <= i < |s| ==> IsDigit(s[i])
  }

  /** The value of a run of decimal digits, most significant first. */
  function DigitsValue(s: string): nat
    requires AllDigits(s)
  {
    if s == [] then 0 else 10 * DigitsValue(s[..|s| - 1]) + DigitValue(s[|s| - 1])
  }

  /** `str(n)` for a natural number: its decimal digits, with no leading zero
      except in `"0"` itself. */
  function NatToString(n: nat): (s: string)
    ensures IsDigits(s) && DigitsValue(s) == n
    ensures s[0] == '0' ==> s == "0"
    decreases n
  {
    if n < 10 then [DigitChar(n)]
    else
      var t := NatToString(n / 10);
      var s := t + [DigitChar(n % 10)];
      assert s[..|s| - 1] == t;
      s
  }

  /** `str(i)` for any integer. */
  function IntToString(i: int): (s: string)
    ensures s != [] && (i < 0 <==> s[0] == '-')
  {
    if i < 0 then "-" + NatToString(-i) else NatToString(i)
  }

  /** Digits with single underscores between them: what `int()` accepts
      after the optional sign. */
  predicate IsNumeral(s: string) {
    s != [] && IsDigit(s[0]) && IsDigit(s[|s| - 1])
    && (forall i :: 0 <= i < |s| ==> IsDigit(s[i]) || s[i] == '_')
    && (forall i :: 0 <= i < |s| - 1 ==> s[i] == '_' ==> s[i + 1] != '_')
  }

  /** `s` without its underscores. */
  function DropUnderscores(s: string): (r: string)
    ensures (forall i :: 0 <= i < |s| ==> IsDigit(s[i]) || s[i] == '_') ==> AllDigits(r)
    ensures AllDigits(s) ==> r == s
  {
    if s == [] then []
    else (if s[0] == '_' then [] else [s[0]]) + DropUnderscores(s[1..])
  }

  /** `int()` on text with no surrounding whitespace: an optional `+` or `-`,
      then a numeral. */
  function ParseSigned(t: string): (r: Option<int>)
    ensures r.Some? ==> t != [] && (r.value < 0 ==> t[0] == '-')
  {
    if t == [] then None
    else
      var body := if t[0] == '-' || t[0] == '+' then t[1..] else t;
      if !IsNumeral(body) then None
      else
        var n: int := DigitsValue(DropUnderscores(body));
        Some(if t[0] == '-' then -n else n)
  }

  /** `int(s)`: `None` where Python raises `ValueError`. Surrounding whitespace
      is ignored. */
  function ParseInt(s: string): (r: Option<int>)
    ensures r.Some? ==> Strip(s) != [] && (r.value < 0 ==> Strip(s)[0] == '-')
  {
    ParseSigned(Strip(s))
  }

  /** Decimal digits are printable ASCII, so never whitespace. */
  lemma {:induction false} DigitNotSpace(c: char)
    requires IsDigit(c)
    ensures !IsSpace(c)
  {
    GraphicNotSpace(c);
  }

  /** A run of digits is a numeral with nothing to drop. */
  lemma {:induction false} DigitsNumeral(d: string)
    requires IsDigits(d)
    ensures IsNumeral(d) && DropUnderscores(d) == d
  {
  }

  /** `int()` reads the digits of `str(m)` back as `m`. */
  lemma {:induction false} ParseNatString(m: nat)
    ensures ParseSigned(NatToString(m)) == Some(m)
  {
    var d := NatToString(m);
    DigitsNumeral(d);
    assert d[0] != '-' && d[0] != '+';
  }

  /** `int()` reads `-` and the digits of `str(m)` back as `-m`. */
  lemma {:induction false} ParseNegString(m: nat)
    ensures ParseSigned("-" + NatToString(m)) == Some(-(m as int))
  {
    var d := NatToString(m);
    var s := "-" + d;
    assert s[0] == '-' && s[1..] == d;
    DigitsNumeral(d);
  }

  /** `int(str(i)) == i`. */
  lemma {:induction false} ParseIntToString(i: int)
    ensures ParseInt(IntToString(i)) == Some(i)
  {
    var s := IntToString(i);
    var m: nat := if i < 0 then -i else i;
    var d := NatToString(m);
    DigitNotSpace(d[|d| - 1]);
    if i < 0 {
      GraphicNotSpace('-');
      assert s[|s| - 1] == d[|d| - 1];
      StripUnpadded(s);
      ParseNegString(m);
    } else {
      DigitNotSpace(d[0]);
      StripUnpadded(s);
      ParseNatString(m);
    }
  }

  /** `int()` ignores whitespace around the number. */
  lemma {:induction false} ParseIntPadded(w1: string, s: string, w2: string)
    requires AllSpace(w1) && AllSpace(w2)
    requires s != [] && !IsSpace(s[0]) && !IsSpace(s[|s| - 1])
    ensures ParseInt(w1 + s + w2) == ParseInt(s)
  {
    StripPadded(w1, s, w2);
    StripUnpadded(s);
  }
}
