/** String helpers shared by the page scripts and the Flask app: decimal
    numerals as JavaScript's String(n) writes them, padStart, trim, prefix and
    suffix tests, and the `a || b` fallback on strings.

    Optional string fields are modelled as `string` with "" standing for an
    absent, null or undefined value: all of them are falsy in JavaScript, so
    `a || b` treats them alike. */
module Text {

  datatype Option<+T> = None | Some(value: T)

  predicate IsDigit(c: char) { '0' <= c <= '9' }

  predicate AllDigits(s: string) { forall i :: 0 <= i < |s| ==> IsDigit(s[i]) }

  function DigitChar(d: nat): (c: char)
    requires d < 10
    ensures IsDigit(c) && c as int - '0' as int == d
  {
    (d + '0' as int) as char
  }

  function DigitValue(c: char): (d: nat)
    requires IsDigit(c)
    ensures d < 10 && DigitChar(d) == c
  {
    c as int - '0' as int
  }

  /** The decimal numeral of `n` without leading zeros, as String(n) and
      Python's str(n) write a non-negative integer. */
  function Decimal(n: nat): (s: string)
    ensures 1 <= |s| && AllDigits(s)
    ensures |s| == 1 <==> n < 10
    ensures n < 100 ==> |s| <= 2
    decreases n
  {
    if n < 10 then [DigitChar(n)] else Decimal(n / 10) + [DigitChar(n % 10)]
  }

  /** Reads a non-empty run of decimal digits (the inverse of Decimal). */
  function ParseDecimal(s: string): nat
    requires 1 <= |s| && AllDigits(s)
    decreases |s|
  {
    if |s| == 1 then DigitValue(s[0])
    else 10 * ParseDecimal(s[..|s| - 1]) + DigitValue(s[|s| - 1])
  }

  lemma {:induction false} ParseDecimalOfDecimal(n: nat)
    ensures ParseDecimal(Decimal(n)) == n
    decreases n
  {
    if n >= 10 {
      var s := Decimal(n);
      assert s[..|s| - 1] == Decimal(n / 10);
      ParseDecimalOfDecimal(n / 10);
    }
  }

  /** String(i) for any integer: a minus sign before the magnitude when negative. */
  function IntToString(i: int): (s: string)
    ensures 1 <= |s|
    ensures i >= 0 ==> s == Decimal(i)
    ensures i < 0 ==> s[0] == '-' && s[1..] == Decimal(-i)
  {
    if i < 0 then "-" + Decimal(-i) else Decimal(i)
  }

  /** Reads an optionally negative decimal numeral; None for anything else. */
  function ParseInt(s: string): Option<int>
  {
    if 2 <= |s| && s[0] == '-' && AllDigits(s[1..]) then Some(0 - ParseDecimal(s[1..]))
    else if 1 <= |s| && AllDigits(s) then Some(ParseDecimal(s))
    else None
  }

  /** ParseInt on a digit run, and on one with a leading minus sign. */
  lemma ParseIntOfDigits(d: string)
    requires 1 <= |d| && AllDigits(d)
    ensures ParseInt(d) == Some(ParseDecimal(d))
  {
    assert IsDigit(d[0]);
  }

  lemma ParseIntOfNegatedDigits(d: string)
    requires 1 <= |d| && AllDigits(d)
    ensures ParseInt("-" + d) == Some(0 - ParseDecimal(d))
  {
    var m := "-" + d;
    assert m[1..] == d;
  }

  lemma ParseIntOfIntToString(i: int)
    ensures ParseInt(IntToString(i)) == Some(i)
  {
    var n: nat := if i < 0 then -i else i;
    var d := Decimal(n);
    ParseDecimalOfDecimal(n);
    if i < 0 {
      ParseIntOfNegatedDigits(d);
    } else {
      ParseIntOfDigits(d);
    }
  }

  lemma IntToStringInjective(a: int, b: int)
    requires IntToString(a) == IntToString(b)
    ensures a == b
  {
    ParseIntOfIntToString(a);
    ParseIntOfIntToString(b);
  }

  /** Years 1000..9999 print as four digits. */
  lemma FourDigitYears(y: int)
    ensures 1000 <= y <= 9999 ==> |IntToString(y)| == 4
  {
    if 1000 <= y <= 9999 {
      assert |Decimal(y / 100)| == 2;
      assert |Decimal(y / 10)| == 3;
    }
  }

  /** String.prototype.padStart(width, fill) with a one-character filler. */
  function PadStart(s: string, width: nat, fill: char): (r: string)
    ensures |r| == if |s| >= width then |s| else width
    ensures r[|r| - |s|..] == s
    ensures forall i :: 0 <= i < |r| - |s| ==> r[i] == fill
  {
    if |s| >= width then s else seq(width - |s|, _ => fill) + s
  }

  /** String(n).padStart(2, "0"): the two-digit field of dates and times,
      written digit by digit below 100 (Pad2IsPadStart shows it is the
      padded numeral). */
  function Pad2(n: nat): (r: string)
    ensures n < 100 ==> |r| == 2 && AllDigits(r)
  {
    if n < 100 then [DigitChar(n / 10), DigitChar(n % 10)] else Decimal(n)
  }

  lemma Pad2IsPadStart(n: nat)
    ensures Pad2(n) == PadStart(Decimal(n), 2, '0')
  {
    if 10 <= n < 100 {
      assert Decimal(n) == Decimal(n / 10) + [DigitChar(n % 10)];
      assert Decimal(n / 10) == [DigitChar(n / 10)];
    }
  }

  /** Two-digit fields read back to the number they show. */
  lemma Pad2RoundTrip(n: nat)
    requires n < 100
    ensures AllDigits(Pad2(n))
    ensures ParseDecimal(Pad2(n)) == n
  {
    var r := Pad2(n);
    assert r[..1] == [r[0]];
  }

  predicate StartsWith(s: string, prefix: string)
  {
    |prefix| <= |s| && s[..|prefix|] == prefix
  }

  predicate EndsWithChar(s: string, c: char)
  {
    |s| > 0 && s[|s| - 1] == c
  }

  /** s.substring(0, n) / s.slice(0, n) for n >= 0. */
  function Take(s: string, n: nat): (r: string)
    ensures |r| == if |s| <= n then |s| else n
    ensures r == s[..|r|]
  {
    if |s| <= n then s else s[..n]
  }

  /** JavaScript truthiness of a nullable numeric id: null and 0 are falsy. */
  predicate Truthy(id: Option<int>)
  {
    id.Some? && id.value != 0
  }

  /** JavaScript's `a || b` on two strings: the first unless it is empty. */
  function Or(a: string, b: string): (r: string)
    ensures a != "" ==> r == a
    ensures a == "" ==> r == b
  {
    if a != "" then a else b
  }

  /** The characters String.prototype.trim removes: ECMAScript WhiteSpace
      and LineTerminator. */
  predicate IsJsSpace(c: char)
  {
    || c == '\t' || c == '\n' || c == '\U{000B}' || c == '\U{000C}' || c == '\r'
    || c == ' ' || c == '\U{00A0}' || c == '\U{1680}'
    || ('\U{2000}' <= c <= '\U{200A}')
    || c == '\U{2028}' || c == '\U{2029}' || c == '\U{202F}' || c == '\U{205F}'
    || c == '\U{3000}' || c == '\U{FEFF}'
  }

  predicate AllSpace(s: string) { forall i :: 0 <= i < |s| ==> IsJsSpace(s[i]) }

  /** The index of the first character at or after `k` that trim keeps,
      or |s| when only whitespace follows. */
  function SkipSpace(s: string, k: nat): (n: nat)
    requires k <= |s|
    ensures k <= n <= |s|
    ensures forall i :: k <= i < n ==> IsJsSpace(s[i])
    ensures n < |s| ==> !IsJsSpace(s[n])
    decreases |s| - k
  {
    if k < |s| && IsJsSpace(s[k]) then SkipSpace(s, k + 1) else k
  }

  /** The end of `s[lo..hi]` once its trailing whitespace is dropped. */
  function SkipSpaceBack(s: string, lo: nat, hi: nat): (n: nat)
    requires lo <= hi <= |s|
    ensures lo <= n <= hi
    ensures forall i :: n <= i < hi ==> IsJsSpace(s[i])
    ensures n > lo ==> !IsJsSpace(s[n - 1])
    decreases hi - lo
  {
    if hi > lo && IsJsSpace(s[hi - 1]) then SkipSpaceBack(s, lo, hi - 1) else hi
  }

  /** String.prototype.trim. */
  function Trim(s: string): (r: string)
    ensures exists i, j :: 0 <= i <= j <= |s| && r == s[i..j] && AllSpace(s[..i]) && AllSpace(s[j..])
    ensures r == "" || (!IsJsSpace(r[0]) && !IsJsSpace(r[|r| - 1]))
    ensures r == "" <==> AllSpace(s)
  {
    var i := SkipSpace(s, 0);
    var j := SkipSpaceBack(s, i, |s|);
    assert AllSpace(s[..i]) && AllSpace(s[j..]);
    assert i < j ==> s[i..j][0] == s[i] && s[i..j][j - i - 1] == s[j - 1];
    assert i < j ==> !AllSpace(s);
    s[i..j]
  }
}
