/**
 * Python's `int(text)` and the syntax `float(text)` accepts, on ASCII text:
 * surrounding white space is stripped, a sign is optional, digits are
 * ASCII `0`-`9`.
 */
module Numbers {
  import opened Wrappers
  import opened Text

  /** The characters `str.strip()` removes among the ASCII ones. */
  predicate IsSpace(c: char) {
    c == ' ' || 9 <= c as int <= 13 || 28 <= c as int <= 31
  }

  function TrimStart(s: string): (r: string)
    ensures |r| <= |s| && r == s[|s| - |r|..]
    ensures r == [] || !IsSpace(r[0])
  {
    if s != [] && IsSpace(s[0]) then TrimStart(s[1..]) else s
  }

  function TrimEnd(s: string): (r: string)
    ensures |r| <= |s| && r == s[..|r|]
    ensures r == [] || !IsSpace(r[|r| - 1])
  {
    if s != [] && IsSpace(s[|s| - 1]) then TrimEnd(s[..|s| - 1]) else s
  }

  /** `s.strip()`. */
  function Strip(s: string): string {
    TrimEnd(TrimStart(s))
  }

  predicate IsDigit(c: char) {
    '0' <= c <= '9'
  }

  predicate AllDigits(s: string) {
    forall i :: 0 <= i < |s| ==> IsDigit(s[i])
  }

  function DigitValue(c: char): nat
    requires IsDigit(c)
  {
    c as int - '0' as int
  }

  function DigitChar(d: nat): (c: char)
    requires d < 10
    ensures IsDigit(c) && DigitValue(c) == d
  {
    ('0' as int + d) as char
  }

  /** The decimal number a string of digits spells, most significant digit first. */
  function DigitsValue(s: string): nat
    requires AllDigits(s)
  {
    if s == [] then 0 else 10 * DigitsValue(s[..|s| - 1]) + DigitValue(s[|s| - 1])
  }

  /** `int(s)`: `None` stands for the `ValueError` Python raises. */
  function ParseInt(s: string): (r: Option<int>)
    ensures r.Some? ==> var t := Strip(s);
              && |t| > 0 && (IsDigit(t[0]) || t[0] == '+' || t[0] == '-')
              && forall i | 0 < i < |t| :: IsDigit(t[i])
    ensures r.Some? && |Strip(s)| == 1 ==> IsDigit(Strip(s)[0])
    ensures r.Some? && r.value < 0 ==> Strip(s)[0] == '-'
  {
    var t := Strip(s);
    if |t| > 0 && (t[0] == '+' || t[0] == '-') then
      var d := t[1..];
      var v: int := if |d| > 0 && AllDigits(d) then DigitsValue(d) else 0;
      if |d| > 0 && AllDigits(d) then Some(if t[0] == '-' then -v else v)
      else None
    else if |t| > 0 && AllDigits(t) then Some(DigitsValue(t))
    else None
  }

  /** The decimal digits of `n`, the partner of `DigitsValue`. */
  function ShowNat(n: nat): (r: string)
    ensures |r| >= 1 && AllDigits(r) && DigitsValue(r) == n
  {
    if n < 10 then [DigitChar(n)]
    else
      var r := ShowNat(n / 10) + [DigitChar(n % 10)];
      assert r[..|r| - 1] == ShowNat(n / 10);
      r
  }

  /** `str(n)`, the partner of `ParseInt`. */
  function ShowInt(n: int): string {
    if n < 0 then "-" + ShowNat(-n) else ShowNat(n)
  }

  /** The mantissa of a decimal float literal: digits with at most one `.`, and at least one digit. */
  predicate IsMantissa(m: string) {
    var d := Find(m, '.', 0);
    if d == -1 then |m| > 0 && AllDigits(m)
    else |m| > 1 && AllDigits(m[..d]) && AllDigits(m[d + 1..])
  }

  predicate IsExponent(x: string) {
    var d := if |x| > 0 && (x[0] == '+' || x[0] == '-') then x[1..] else x;
    |d| > 0 && AllDigits(d)
  }

  predicate IsDecimal(b: string) {
    var e := Find(Lower(b), 'e', 0);
    if e == -1 then IsMantissa(b) else IsMantissa(b[..e]) && IsExponent(b[e + 1..])
  }

  /** `float(s)` succeeds: a signed decimal with optional exponent, or inf / infinity / nan in any case. */
  predicate IsFloatLiteral(s: string) {
    var t := Strip(s);
    var body := if |t| > 0 && (t[0] == '+' || t[0] == '-') then t[1..] else t;
    var word := Lower(body);
    word == "inf" || word == "infinity" || word == "nan" || IsDecimal(body)
  }

  // ---------------------------------------------------------------- lemmas

  /** A mantissa is not empty and starts with a digit or the point. */
  lemma MantissaStart(m: string)
    requires IsMantissa(m)
    ensures m != [] && (IsDigit(m[0]) || m[0] == '.')
  {
    var d := Find(m, '.', 0);
    if d > 0 {
      assert m[..d][0] == m[0];
    }
  }

  /** What `float()` accepts is not blank, and after the optional sign it starts with a digit, the point, or the `i` / `n` of a word. */
  lemma FloatLiteralStart(s: string)
    requires IsFloatLiteral(s)
    ensures var t := Strip(s);
            var body := if |t| > 0 && (t[0] == '+' || t[0] == '-') then t[1..] else t;
            body != [] && (IsDigit(body[0]) || body[0] == '.' || LowerChar(body[0]) == 'i' || LowerChar(body[0]) == 'n')
  {
    var t := Strip(s);
    var body := if |t| > 0 && (t[0] == '+' || t[0] == '-') then t[1..] else t;
    var word := Lower(body);
    if word == "inf" || word == "infinity" || word == "nan" {
      assert word[0] == LowerChar(body[0]);
    } else {
      var e := Find(Lower(body), 'e', 0);
      if e == -1 {
        MantissaStart(body);
      } else {
        MantissaStart(body[..e]);
        assert body[..e][0] == body[0];
      }
    }
  }

  lemma StripUnspaced(s: string)
    requires s != [] && !IsSpace(s[0]) && !IsSpace(s[|s| - 1])
    ensures Strip(s) == s
  {
  }

  /** A run of digits parses as the number it spells. */
  lemma ParseDigits(s: string)
    requires |s| > 0 && AllDigits(s)
    ensures ParseInt(s) == Some(DigitsValue(s))
  {
    StripUnspaced(s);
  }

  /** `int(str(n)) == n` for every integer. */
  lemma ParseShowInt(n: int)
    ensures ParseInt(ShowInt(n)) == Some(n)
  {
    var s := ShowInt(n);
    if n < 0 {
      var d := ShowNat(-n);
      assert s[0] == '-' && s[1..] == d && s[|s| - 1] == d[|d| - 1];
      StripUnspaced(s);
    } else {
      ParseDigits(s);
    }
  }

  /** Every text `int()` accepts, `float()` accepts too. */
  lemma IntLiteralIsFloatLiteral(s: string)
    requires ParseInt(s).Some?
    ensures IsFloatLiteral(s)
  {
    var t := Strip(s);
    var body := if |t| > 0 && (t[0] == '+' || t[0] == '-') then t[1..] else t;
    assert |body| > 0 && AllDigits(body);
    assert forall i :: 0 <= i < |body| ==> Lower(body)[i] != 'e';
    assert Find(Lower(body), 'e', 0) == -1;
    assert Find(body, '.', 0) == -1;
  }

  /** The placeholder `unknown` and the text `notanum` are not integers. */
  lemma NotIntegers()
    ensures ParseInt("unknown") == None
    ensures ParseInt("notanum") == None
  {
    NotDigitsNotInteger("unknown");
    NotDigitsNotInteger("notanum");
  }

  /** Stripping trailing white space keeps a first character that is not white space. */
  lemma {:induction false} TrimEndKeepsFirst(s: string)
    requires s != [] && !IsSpace(s[0])
    ensures TrimEnd(s) != [] && TrimEnd(s)[0] == s[0]
    decreases |s|
  {
    if IsSpace(s[|s| - 1]) {
      TrimEndKeepsFirst(s[..|s| - 1]);
    }
  }

  /** Text that starts with an ASCII letter is not an integer, whatever follows. */
  lemma NotDigitsNotInteger(s: string)
    requires |s| > 0 && ('a' <= s[0] <= 'z' || 'A' <= s[0] <= 'Z')
    ensures ParseInt(s) == None
  {
    assert TrimStart(s) == s;
    TrimEndKeepsFirst(s);
    assert !IsDigit(Strip(s)[0]);
  }
}
