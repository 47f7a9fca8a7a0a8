/**
 * Python's `int(text)` on a string (base 10) and `str(n)` on an int, the two
 * conversions the campus header goes through: surrounding whitespace is
 * stripped, one optional sign, then decimal digits with single underscores
 * allowed between digits. Anything else raises `ValueError`, modelled as `None`.
 */
module PyInt {
  import opened Wrappers

  predicate IsDigit(c: char) { '0' <= c <= '9' }

  /**
   * The ASCII characters `str.isspace` accepts: space, tab, line feed,
   * carriage return, vertical tab, form feed and the four information
   * separators 0x1C-0x1F.
   */
  predicate IsSpace(c: char) {
    c == ' ' || c == '\t' || c == '\n' || c == '\r' || c == '\U{000B}' || c == '\U{000C}'
    || ('\U{001C}' <= c <= '\U{001F}')
  }

  function StripLeft(s: string): (r: string)
    ensures |r| <= |s|
    ensures r == s[|s| - |r|..]
    ensures r == [] || !IsSpace(r[0])
  {
    if s != [] && IsSpace(s[0]) then StripLeft(s[1..]) else s
  }

  function StripRight(s: string): (r: string)
    ensures |r| <= |s|
    ensures r == s[..|r|]
    ensures r == [] || !IsSpace(r[|r| - 1])
  {
    if s != [] && IsSpace(s[|s| - 1]) then StripRight(s[..|s| - 1]) else s
  }

  /** Python's `s.strip()` for the ASCII whitespace characters. */
  function Strip(s: string): string {
    StripRight(StripLeft(s))
  }

  /** Digits, with each underscore standing between two digits. */
  predicate WellFormedDigits(b: string) {
    && |b| > 0
    && IsDigit(b[0]) && IsDigit(b[|b| - 1])
    && (forall i :: 0 <= i < |b| ==> IsDigit(b[i]) || b[i] == '_')
    && (forall i :: 0 <= i < |b| - 1 ==> !(b[i] == '_' && b[i + 1] == '_'))
  }

  /** The decimal value of a digit string, underscores ignored. */
  function DigitsValue(b: string): nat
    decreases |b|
  {
    if b == [] then 0
    else if IsDigit(b[|b| - 1]) then DigitsValue(b[..|b| - 1]) * 10 + (b[|b| - 1] as int - '0' as int)
    else DigitsValue(b[..|b| - 1])
  }

  function ParseDigits(b: string): Option<nat> {
    if WellFormedDigits(b) then Some(DigitsValue(b)) else None
  }

  /** `int(s)`: `None` stands for the `ValueError` Python raises. */
  function ParseInt(s: string): (r: Option<int>)
    ensures r.Some? ==> |Strip(s)| > 0 && IsDigit(Strip(s)[|Strip(s)| - 1])
    ensures r.Some? ==> forall i :: 0 < i < |Strip(s)| ==> IsDigit(Strip(s)[i]) || Strip(s)[i] == '_'
    ensures r.Some? ==> IsDigit(Strip(s)[0]) || Strip(s)[0] == '+' || Strip(s)[0] == '-'
    ensures r.Some? && r.value < 0 ==> Strip(s)[0] == '-'
  {
    var t := Strip(s);
    if |t| > 0 && (t[0] == '+' || t[0] == '-') then
      match ParseDigits(t[1..])
      case None => None
      case Some(v) => var x: int := v; Some(if t[0] == '-' then -x else x)
    else
      match ParseDigits(t)
      case None => None
      case Some(v) => Some(v)
  }

  /** The converse: well-formed stripped digits, after at most one sign, give their value. */
  lemma ParseIntWellFormed(s: string)
    ensures WellFormedDigits(Strip(s)) ==> ParseInt(s) == Some(DigitsValue(Strip(s)))
    ensures |Strip(s)| > 0 && Strip(s)[0] == '+' && WellFormedDigits(Strip(s)[1..]) ==>
      ParseInt(s) == Some(DigitsValue(Strip(s)[1..]))
    ensures |Strip(s)| > 0 && Strip(s)[0] == '-' && WellFormedDigits(Strip(s)[1..]) ==>
      ParseInt(s) == Some(-(DigitsValue(Strip(s)[1..]) as int))
  {
  }

  function DigitChar(d: nat): (c: char)
    requires d < 10
    ensures IsDigit(c) && c as int - '0' as int == d
  {
    ('0' as int + d) as char
  }

  /** `str(n)` for `n >= 0`: the shortest decimal numeral. */
  function NatToString(n: nat): (r: string)
    ensures |r| > 0
    ensures forall i :: 0 <= i < |r| ==> IsDigit(r[i])
    decreases n
  {
    if n < 10 then [DigitChar(n)] else NatToString(n / 10) + [DigitChar(n % 10)]
  }

  /** `str(n)`: a minus sign in front of negative numbers. */
  function IntToString(n: int): string {
    if n < 0 then "-" + NatToString(-n) else NatToString(n)
  }

  lemma {:induction false} NatToStringValue(n: nat)
    ensures DigitsValue(NatToString(n)) == n
    decreases n
  {
    var r := NatToString(n);
    if n < 10 {
      assert r[..0] == [];
    } else {
      NatToStringValue(n / 10);
      assert r[..|r| - 1] == NatToString(n / 10);
    }
  }

  lemma ParseDigitsOfNat(m: nat)
    ensures ParseDigits(NatToString(m)) == Some(m)
  {
    var d := NatToString(m);
    NatToStringValue(m);
    assert forall i :: 0 <= i < |d| - 1 ==> IsDigit(d[i]);
    assert WellFormedDigits(d);
  }

  lemma StripNoSpace(s: string)
    requires |s| > 0 && !IsSpace(s[0]) && !IsSpace(s[|s| - 1])
    ensures Strip(s) == s
  {
  }

  lemma ParseIntOfNatString(m: nat)
    ensures ParseInt(NatToString(m)) == Some(m)
  {
    var d := NatToString(m);
    ParseDigitsOfNat(m);
    StripNoSpace(d);
    assert !(d[0] == '+' || d[0] == '-');
  }

  lemma ParseIntOfNegString(m: nat)
    requires m > 0
    ensures ParseInt("-" + NatToString(m)) == Some(0 - m)
  {
    var d := NatToString(m);
    var s := "-" + d;
    ParseDigitsOfNat(m);
    assert s[|s| - 1] == d[|d| - 1];
    StripNoSpace(s);
    assert s[1..] == d;
  }

  /** Reading back what `str` printed gives the same number: `int(str(n)) == n`. */
  lemma ParseIntToString(n: int)
    ensures ParseInt(IntToString(n)) == Some(n)
  {
    if n < 0 {
      var m: nat := -n;
      assert IntToString(n) == "-" + NatToString(m);
      ParseIntOfNegString(m);
    } else {
      ParseIntOfNatString(n);
      assert IntToString(n) == NatToString(n);
    }
  }

  lemma {:induction false} StripLeftAllSpace(s: string)
    requires forall i :: 0 <= i < |s| ==> IsSpace(s[i])
    ensures StripLeft(s) == []
    decreases |s|
  {
    if s != [] {
      StripLeftAllSpace(s[1..]);
    }
  }

  /** A leading whitespace character is dropped by `lstrip`. */
  lemma StripLeftSpace(c: char, s: string)
    requires IsSpace(c)
    ensures StripLeft([c] + s) == StripLeft(s)
  {
    assert ([c] + s)[1..] == s;
  }

  /**
   * A leading information separator (0x1C-0x1F) is stripped like any other
   * whitespace: `int("\x1f" + s)` is `int(s)`.
   */
  lemma ParseIntLeadingSeparator(c: char, s: string)
    requires '\U{001C}' <= c <= '\U{001F}'
    ensures ParseInt([c] + s) == ParseInt(s)
  {
    StripLeftSpace(c, s);
    assert Strip([c] + s) == Strip(s);
  }

  /** `int()` rejects the empty string and a string of spaces. */
  lemma ParseIntBlank(s: string)
    requires forall i :: 0 <= i < |s| ==> IsSpace(s[i])
    ensures ParseInt(s) == None
  {
    StripLeftAllSpace(s);
  }
}
