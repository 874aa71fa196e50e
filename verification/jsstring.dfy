/** The few JavaScript string primitives the app relies on: relational
    comparison of strings (`<=` on `YYYY-MM-DD` dates), `startsWith`, `trim`,
    `parseInt(s, 10)` and the decimal rendering of an integer (`${n}`). */
module JsString {
  import opened Wrappers

  /** The WhiteSpace and LineTerminator code points of ECMAScript, which are
      exactly what `String.prototype.trim` and `parseInt` skip. */
  predicate IsWhitespace(c: char) {
    || c == '\t' || c == '\n' || c == '\U{B}' || c == '\U{C}' || c == '\r'
    || c == ' ' || c == '\U{A0}' || c == '\U{1680}'
    || ('\U{2000}' <= c <= '\U{200A}')
    || c == '\U{2028}' || c == '\U{2029}' || c == '\U{202F}' || c == '\U{205F}'
    || c == '\U{3000}' || c == '\U{FEFF}'
  }

  predicate AllWhitespace(s: string) {
    forall i :: 0 <= i < |s| ==> IsWhitespace(s[i])
  }

  predicate StartsWith(s: string, prefix: string) {
    |prefix| <= |s| && s[..|prefix|] == prefix
  }

  // ---------------------------------------------------------------------
  // Relational comparison: JavaScript compares strings code unit by code
  // unit, and a proper prefix is smaller.
  // ---------------------------------------------------------------------

  /** `a <= b` on JavaScript strings. */
  predicate LexLe(a: string, b: string)
    decreases |a|
  {
    || |a| == 0
    || (|b| > 0 && (a[0] < b[0] || (a[0] == b[0] && LexLe(a[1..], b[1..]))))
  }

  lemma {:induction false} LexLeReflexive(a: string)
    ensures LexLe(a, a)
    decreases |a|
  {
    if |a| > 0 {
      LexLeReflexive(a[1..]);
    }
  }

  lemma {:induction false} LexLeTotal(a: string, b: string)
    ensures LexLe(a, b) || LexLe(b, a)
    decreases |a|
  {
    if |a| > 0 && |b| > 0 && a[0] == b[0] {
      LexLeTotal(a[1..], b[1..]);
    }
  }

  lemma {:induction false} LexLeTransitive(a: string, b: string, c: string)
    requires LexLe(a, b) && LexLe(b, c)
    ensures LexLe(a, c)
    decreases |a|
  {
    if |a| > 0 && a[0] == b[0] && b[0] == c[0] {
      LexLeTransitive(a[1..], b[1..], c[1..]);
    }
  }

  lemma {:induction false} LexLeAntisymmetric(a: string, b: string)
    requires LexLe(a, b) && LexLe(b, a)
    ensures a == b
    decreases |a|
  {
    if |a| > 0 {
      LexLeAntisymmetric(a[1..], b[1..]);
      assert a == [a[0]] + a[1..] && b == [b[0]] + b[1..];
    }
  }

  // ---------------------------------------------------------------------
  // trim
  // ---------------------------------------------------------------------

  function TrimStart(s: string): (r: string)
    ensures |r| <= |s| && r == s[|s| - |r|..]
    ensures |r| == 0 || !IsWhitespace(r[0])
    ensures forall i :: 0 <= i < |s| - |r| ==> IsWhitespace(s[i])
  {
    if |s| > 0 && IsWhitespace(s[0]) then TrimStart(s[1..]) else s
  }

  function TrimEnd(s: string): (r: string)
    ensures |r| <= |s| && r == s[..|r|]
    ensures |r| == 0 || !IsWhitespace(r[|r| - 1])
    ensures forall i :: |r| <= i < |s| ==> IsWhitespace(s[i])
  {
    if |s| > 0 && IsWhitespace(s[|s| - 1]) then TrimEnd(s[..|s| - 1]) else s
  }

  /** `s.trim()`: the slice of `s` between its leading and trailing white space. */
  function Trim(s: string): (r: string)
    ensures |r| == 0 || (!IsWhitespace(r[0]) && !IsWhitespace(r[|r| - 1]))
  {
    TrimEnd(TrimStart(s))
  }

  /** `s.trim()` is empty exactly when `s` is blank. */
  lemma TrimEmptyIffBlank(s: string)
    ensures |Trim(s)| == 0 <==> AllWhitespace(s)
  {
    var t := TrimStart(s);
    if |Trim(s)| == 0 {
      assert |t| == 0;
    } else {
      var r := Trim(s);
      assert !IsWhitespace(s[|s| - |t|]) by {
        assert r[0] == t[0] == s[|s| - |t|];
      }
    }
  }

  // ---------------------------------------------------------------------
  // Decimal digits: parseInt(s, 10) and `${n}`
  // ---------------------------------------------------------------------

  predicate IsDigit(c: char) {
    '0' <= c <= '9'
  }

  predicate AllDigits(s: string) {
    forall i :: 0 <= i < |s| ==> IsDigit(s[i])
  }

  function DigitValue(c: char): nat
    requires IsDigit(c)
  {
    (c as int) - ('0' as int)
  }

  function DigitChar(d: nat): (c: char)
    requires d < 10
    ensures IsDigit(c) && DigitValue(c) == d
  {
    (('0' as int) + d) as char
  }

  /** The longest prefix of `s` made of decimal digits. */
  function LeadingDigits(s: string): (r: string)
    ensures |r| <= |s| && r == s[..|r|]
    ensures AllDigits(r)
    ensures |r| == |s| || !IsDigit(s[|r|])
  {
    if |s| > 0 && IsDigit(s[0]) then [s[0]] + LeadingDigits(s[1..]) else []
  }

  /** The number a string of decimal digits denotes. */
  function DigitsValue(d: string): nat
    requires AllDigits(d)
  {
    if |d| == 0 then 0 else DigitsValue(d[..|d| - 1]) * 10 + DigitValue(d[|d| - 1])
  }

  /** `parseInt(s, 10)`: leading white space, an optional sign, then the
      longest run of digits; `None` stands for `NaN` (no digit found). */
  function ParseInt(s: string): Option<int> {
    ParseSigned(TrimStart(s))
  }

  /** `parseInt` once the white space is skipped: a `-` negates, a `+` is
      dropped. */
  function ParseSigned(t: string): Option<int> {
    if |t| > 0 && t[0] == '-' then
      match ParseDigits(t[1..])
      case None => None
      case Some(v) => Some(0 - v)
    else if |t| > 0 && t[0] == '+' then ParseDigits(t[1..])
    else ParseDigits(t)
  }

  /** The value of the leading run of digits, if there is one. */
  function ParseDigits(u: string): Option<int> {
    var digits := LeadingDigits(u);
    if |digits| == 0 then None else Some(DigitsValue(digits))
  }

  /** The decimal rendering of a natural number, without leading zeros. */
  function NatToString(n: nat): (r: string)
    ensures |r| > 0 && AllDigits(r)
  {
    if n < 10 then [DigitChar(n)] else NatToString(n / 10) + [DigitChar(n % 10)]
  }

  /** `${n}` for an integer `n`. */
  function IntToString(n: int): (r: string)
    ensures |r| > 0 && IsDigit(r[|r| - 1])
  {
    if n < 0 then "-" + NatToString(-n) else NatToString(n)
  }

  lemma {:induction false} NatToStringValue(n: nat)
    ensures DigitsValue(NatToString(n)) == n
    decreases n
  {
    if n >= 10 {
      NatToStringValue(n / 10);
      var s := NatToString(n);
      assert s[..|s| - 1] == NatToString(n / 10);
    }
  }

  lemma {:induction false} LeadingDigitsOfDigits(d: string, rest: string)
    requires AllDigits(d)
    requires |rest| == 0 || !IsDigit(rest[0])
    ensures LeadingDigits(d + rest) == d
    decreases |d|
  {
    var s := d + rest;
    if |d| > 0 {
      assert s[0] == d[0] && IsDigit(s[0]);
      assert s[1..] == d[1..] + rest;
      assert AllDigits(d[1..]) by {
        forall i | 0 <= i < |d[1..]|
          ensures IsDigit(d[1..][i])
        {
          assert d[1..][i] == d[i + 1];
        }
      }
      LeadingDigitsOfDigits(d[1..], rest);
      assert LeadingDigits(s) == [d[0]] + d[1..];
      assert [d[0]] + d[1..] == d;
    } else {
      assert s == rest;
    }
  }

  /** Reading back what `${n}` printed, possibly followed by a word such as
      " yes", yields `n`: `parseInt` stops at the first non-digit. */
  lemma ParseIntOfIntToString(n: int, rest: string)
    requires |rest| == 0 || !IsDigit(rest[0])
    ensures ParseInt(IntToString(n) + rest) == Some(n)
  {
    if n < 0 {
      assert IntToString(n) == "-" + NatToString(-n);
      ParseIntNegative(-n, rest);
      assert IntToString(n) + rest == "-" + NatToString(-n) + rest;
    } else {
      ParseIntUnsigned(n, rest);
    }
  }

  lemma ParseDigitsThen(d: string, rest: string)
    requires |d| > 0 && AllDigits(d)
    requires |rest| == 0 || !IsDigit(rest[0])
    ensures ParseDigits(d + rest) == Some(DigitsValue(d))
  {
    LeadingDigitsOfDigits(d, rest);
  }

  lemma TrimStartUnchanged(s: string)
    requires |s| > 0 && !IsWhitespace(s[0])
    ensures TrimStart(s) == s
  {
  }

  lemma DigitNotWhitespace(c: char)
    requires IsDigit(c)
    ensures !IsWhitespace(c)
  {
  }

  lemma ParseIntUnsigned(n: nat, rest: string)
    requires |rest| == 0 || !IsDigit(rest[0])
    ensures ParseInt(NatToString(n) + rest) == Some(n)
  {
    var m := NatToString(n);
    var s := m + rest;
    assert s[0] == m[0];
    DigitNotWhitespace(s[0]);
    TrimStartUnchanged(s);
    ParseDigitsThen(m, rest);
    NatToStringValue(n);
  }

  lemma ParseIntNegative(n: nat, rest: string)
    requires n > 0
    requires |rest| == 0 || !IsDigit(rest[0])
    ensures ParseInt("-" + NatToString(n) + rest) == Some(0 - n)
  {
    var m := NatToString(n);
    var s := "-" + m + rest;
    assert s[0] == '-';
    TrimStartUnchanged(s);
    assert s[1..] == m + rest;
    ParseDigitsThen(m, rest);
    NatToStringValue(n);
  }

  /** The plain round trip `parseInt(String(n), 10) == n`. */
  lemma ParseIntRoundTrip(n: int)
    ensures ParseInt(IntToString(n)) == Some(n)
  {
    ParseIntOfIntToString(n, "");
    assert IntToString(n) + "" == IntToString(n);
  }

  /** `parseInt` of the empty string (or of blanks only) is `NaN`. */
  lemma ParseIntBlank(s: string)
    requires AllWhitespace(s)
    ensures ParseInt(s) == None
  {
  }
}
