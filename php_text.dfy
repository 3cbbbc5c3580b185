/**
 * The few PHP string primitives the mail client relies on: `empty()` and the
 * truthiness of a string, `trim()` with its default character list, the
 * decimal rendering of an integer (as in `"/^" . $code . "/"`), and the
 * anchored prefix test a pattern `/^digits/` performs.
 */
module PhpText {

  /** `empty($s)` for a string, and equally `!$s` in a condition: PHP treats
      both "" and "0" as empty/false. */
  predicate IsEmptyString(s: string) {
    s == "" || s == "0"
  }

  /** The characters `trim()` strips by default: space, tab, line feed,
      carriage return, NUL and vertical tab. */
  predicate IsTrimmable(c: char) {
    c == ' ' || c == '\t' || c == '\n' || c == '\r' || c == '\0' || c == '\U{0B}'
  }

  predicate AllTrimmable(s: string) {
    forall k :: 0 <= k < |s| ==> IsTrimmable(s[k])
  }

  lemma AllTrimmableJoin(a: string, b: string)
    requires AllTrimmable(a) && AllTrimmable(b)
    ensures AllTrimmable(a + b)
  {
    forall k | 0 <= k < |a + b|
      ensures IsTrimmable((a + b)[k])
    {
      if k < |a| {
        assert (a + b)[k] == a[k];
      } else {
        assert (a + b)[k] == b[k - |a|];
      }
    }
  }

  /** `ltrim()`: the longest suffix of `s` that does not start with a trimmable character. */
  function TrimStart(s: string): (r: string)
    ensures |r| <= |s| && r == s[|s| - |r|..]
    ensures AllTrimmable(s[..|s| - |r|])
    ensures r == [] || !IsTrimmable(r[0])
  {
    if s != [] && IsTrimmable(s[0]) then
      var r := TrimStart(s[1..]);
      assert s[..|s| - |r|] == [s[0]] + s[1..][..|s| - 1 - |r|];
      AllTrimmableJoin([s[0]], s[1..][..|s| - 1 - |r|]);
      r
    else
      s
  }

  /** `rtrim()`: the longest prefix of `s` that does not end with a trimmable character. */
  function TrimEnd(s: string): (r: string)
    ensures |r| <= |s| && r == s[..|r|]
    ensures AllTrimmable(s[|r|..])
    ensures r == [] || !IsTrimmable(r[|r| - 1])
  {
    if s != [] && IsTrimmable(s[|s| - 1]) then
      var r := TrimEnd(s[..|s| - 1]);
      assert s[|r|..] == s[..|s| - 1][|r|..] + [s[|s| - 1]];
      AllTrimmableJoin(s[..|s| - 1][|r|..], [s[|s| - 1]]);
      r
    else
      s
  }

  /** `trim()`: strip trimmable characters from both ends. */
  function Trim(s: string): (r: string)
    ensures |r| <= |s|
    ensures r == [] || (!IsTrimmable(r[0]) && !IsTrimmable(r[|r| - 1]))
  {
    TrimEnd(TrimStart(s))
  }

  lemma TrimStartPadded(pad: string, rest: string)
    requires AllTrimmable(pad)
    requires rest == [] || !IsTrimmable(rest[0])
    ensures TrimStart(pad + rest) == rest
  {
    var s := pad + rest;
    var r := TrimStart(s);
    assert r == s[|pad|..];
  }

  lemma TrimEndPadded(rest: string, pad: string)
    requires AllTrimmable(pad)
    requires rest == [] || !IsTrimmable(rest[|rest| - 1])
    ensures TrimEnd(rest + pad) == rest
  {
    var s := rest + pad;
    var r := TrimEnd(s);
    assert r == s[..|rest|];
  }

  /** `trim()` removes exactly the padding around a text that has no
      trimmable character at either end. */
  lemma TrimPadded(before: string, text: string, after: string)
    requires AllTrimmable(before) && AllTrimmable(after)
    requires text == [] || (!IsTrimmable(text[0]) && !IsTrimmable(text[|text| - 1]))
    ensures Trim(before + text + after) == text
  {
    if text == [] {
      assert before + text + after == (before + after) + [];
      TrimStartPadded(before + after, []);
    } else {
      assert before + text + after == before + (text + after);
      TrimStartPadded(before, text + after);
      TrimEndPadded(text, after);
    }
  }

  /** `trim()` is idempotent. */
  lemma TrimIdempotent(s: string)
    ensures Trim(Trim(s)) == Trim(s)
  {
    var t := Trim(s);
    TrimStartPadded([], t);
    TrimEndPadded(t, []);
  }

  predicate IsDigit(c: char) {
    '0' <= c <= '9'
  }

  predicate AllDigits(s: string) {
    forall k :: 0 <= k < |s| ==> IsDigit(s[k])
  }

  function DigitChar(d: nat): (c: char)
    requires d < 10
    ensures IsDigit(c)
  {
    "0123456789"[d]
  }

  /** The decimal string of a non-negative integer, as PHP writes an `int`
      into a string: no sign, no leading zero. */
  function DecimalString(n: nat): (s: string)
    ensures |s| >= 1 && AllDigits(s)
    ensures n > 0 ==> s[0] != '0'
  {
    if n < 10 then [DigitChar(n)] else DecimalString(n / 10) + [DigitChar(n % 10)]
  }

  /** The value a string of decimal digits denotes. */
  function ParseDecimal(s: string): nat
    requires AllDigits(s)
  {
    if s == [] then 0 else ParseDecimal(s[..|s| - 1]) * 10 + (s[|s| - 1] as int - '0' as int)
  }

  /** Reading the decimal string of `n` back gives `n`. */
  lemma {:induction false} ParseDecimalString(n: nat)
    ensures ParseDecimal(DecimalString(n)) == n
  {
    var s := DecimalString(n);
    if n >= 10 {
      assert s[..|s| - 1] == DecimalString(n / 10);
      ParseDecimalString(n / 10);
    }
  }

  /** The decimal string of a number determines the number. */
  lemma DecimalStringInjective(m: nat, n: nat)
    requires DecimalString(m) == DecimalString(n)
    ensures m == n
  {
    ParseDecimalString(m);
    ParseDecimalString(n);
  }

  /** `preg_match("/^" . $prefix . "/", $s)` for a pattern made only of
      digits: an anchored, unterminated prefix test. */
  predicate StartsWith(s: string, prefix: string) {
    prefix <= s
  }

  /** The anchored match compares the leading characters of `s` with the
      pattern, one by one, and needs `s` to be at least as long. */
  lemma StartsWithLeadingCharacters(s: string, prefix: string)
    ensures StartsWith(s, prefix) <==>
      |prefix| <= |s| && forall k :: 0 <= k < |prefix| ==> s[k] == prefix[k]
  {
    if |prefix| <= |s| && forall k :: 0 <= k < |prefix| ==> s[k] == prefix[k] {
      assert s[..|prefix|] == prefix;
    }
  }
}
