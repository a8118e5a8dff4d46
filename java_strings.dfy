/**
 * The few `java.lang.String` and `java.lang.Long` operations the CSV driver
 * relies on, over `seq<char>`. A Dafny `char` is a Unicode scalar value, where a
 * Java `char` is a UTF-16 code unit; the operations here treat every character
 * alike, so only characters outside the Basic Multilingual Plane differ.
 */
module JavaStrings {

  import opened Wrappers

  /** A character `String.trim()` removes: every code unit up to and including U+0020. */
  predicate IsTrimmable(c: char) {
    c <= ' '
  }

  /** Every character of `s` is one `trim()` removes. */
  predicate IsBlank(s: string) {
    forall i :: 0 <= i < |s| ==> IsTrimmable(s[i])
  }

  /** Where `String.trim()` starts the result: the length of the longest trimmable prefix. */
  function TrimStartIndex(s: string): (n: nat)
    ensures n <= |s|
    ensures forall i :: 0 <= i < n ==> IsTrimmable(s[i])
    ensures n < |s| ==> !IsTrimmable(s[n])
  {
    if s == [] || !IsTrimmable(s[0]) then 0 else 1 + TrimStartIndex(s[1..])
  }

  /** Where `String.trim()` ends the result: the start of the longest trimmable suffix. */
  function TrimEndIndex(s: string): (m: nat)
    ensures m <= |s|
    ensures forall i :: m <= i < |s| ==> IsTrimmable(s[i])
    ensures 0 < m ==> !IsTrimmable(s[m - 1])
  {
    if s == [] || !IsTrimmable(s[|s| - 1]) then |s| else TrimEndIndex(s[..|s| - 1])
  }

  /**
   * `String.trim()`: the slice of `s` between its trimmable prefix and its trimmable suffix. It
   * is empty exactly when `s` is blank, and otherwise begins and ends with a character that stays.
   */
  function Trim(s: string): (r: string)
    ensures var a := TrimStartIndex(s);
      && a + |r| <= |s| && r == s[a..a + |r|]
      && (forall i :: 0 <= i < a ==> IsTrimmable(s[i]))
      && (forall i :: a + |r| <= i < |s| ==> IsTrimmable(s[i]))
    ensures r == [] <==> IsBlank(s)
    ensures r != [] ==> !IsTrimmable(r[0]) && !IsTrimmable(r[|r| - 1])
  {
    var a := TrimStartIndex(s);
    var m := TrimEndIndex(s[a..]);
    assert forall i :: a + m <= i < |s| ==> s[i] == s[a..][i - a];
    assert a < |s| ==> s[a] == s[a..][0];
    s[a..a + m]
  }

  /** `s.lastIndexOf(c)`: the index of the last `c` in `s`, or -1 when there is none. */
  function LastIndexOf(s: string, c: char): (i: int)
    ensures -1 <= i < |s|
    ensures i == -1 <==> c !in s
    ensures 0 <= i ==> s[i] == c && c !in s[i + 1..]
  {
    if s == [] then -1
    else if s[|s| - 1] == c then |s| - 1
    else
      assert s == s[..|s| - 1] + [s[|s| - 1]];
      LastIndexOf(s[..|s| - 1], c)
  }

  /** One of `0` to `9`. */
  predicate IsDigit(c: char) {
    '0' <= c <= '9'
  }

  /** The character of a decimal digit value. */
  function DigitChar(d: nat): (c: char)
    requires d < 10
    ensures IsDigit(c)
  {
    ('0' as int + d) as char
  }

  /** The value of a digit character; the inverse of `DigitChar`. */
  function DigitValue(c: char): (d: nat)
    requires IsDigit(c)
    ensures d < 10 && DigitChar(d) == c
  {
    (c as int - '0' as int) as nat
  }

  /** Decimal digits of `n`, most significant first (`LongToString(n / 10)` is `Digits(n / 10)`). */
  function Digits(n: nat): (s: string)
    ensures |s| >= 1
    decreases n, 0
  {
    if n < 10 then [DigitChar(n)] else LongToString(n / 10) + [DigitChar(n % 10)]
  }

  /** The digits of `n` are decimal digits without a leading zero. */
  lemma {:induction false} DigitsWellFormed(n: nat)
    ensures var s := Digits(n); (forall i :: 0 <= i < |s| ==> IsDigit(s[i])) && (|s| > 1 ==> s[0] != '0')
  {
    if n >= 10 {
      DigitsWellFormed(n / 10);
      var s := Digits(n);
      assert s == Digits(n / 10) + [DigitChar(n % 10)];
      assert forall i :: 0 <= i < |s| - 1 ==> s[i] == Digits(n / 10)[i];
    }
  }

  /** Reads back a string of decimal digits. */
  function ParseDigits(s: string): nat
    requires forall i :: 0 <= i < |s| ==> IsDigit(s[i])
  {
    if s == [] then 0 else 10 * ParseDigits(s[..|s| - 1]) + DigitValue(s[|s| - 1])
  }

  /** Reading back the digits of `n` gives `n`. */
  lemma {:induction false} DigitsRoundTrip(n: nat)
    ensures var s := Digits(n); (forall i :: 0 <= i < |s| ==> IsDigit(s[i])) && ParseDigits(s) == n
  {
    DigitsWellFormed(n);
    if n >= 10 {
      var s := Digits(n);
      assert s[..|s| - 1] == Digits(n / 10);
      DigitsRoundTrip(n / 10);
      assert DigitValue(DigitChar(n % 10)) == n % 10;
    } else {
      assert DigitValue(DigitChar(n)) == n;
    }
  }

  /** `Long.toString(n)` (as string concatenation uses it): an optional minus sign, then the digits. */
  function LongToString(n: int): string
    decreases if n < 0 then 1 - n else n, 1
  {
    if n < 0 then "-" + Digits(-n) else Digits(n)
  }

  /** Reads back what `LongToString` writes; `None` for anything else. */
  function ParseLong(s: string): Option<int> {
    if s != [] && s[0] == '-' && |s| > 1 && (forall i :: 1 <= i < |s| ==> IsDigit(s[i])) then
      Some(0 - (ParseDigits(s[1..]) as int))
    else if s != [] && forall i :: 0 <= i < |s| ==> IsDigit(s[i]) then
      Some(ParseDigits(s))
    else
      None
  }

  /** The decimal form of a `long` is non-empty, has no comma, and parses back to the number. */
  lemma LongToStringRoundTrip(n: int)
    ensures var s := LongToString(n); s != [] && ',' !in s && ParseLong(s) == Some(n)
  {
    if n < 0 {
      NegativeRoundTrip(-n);
    } else {
      DigitsRoundTrip(n);
      NoCommaInDigits(Digits(n));
    }
  }

  /** A minus sign before the digits of `m` reads back as `-m`. */
  lemma NegativeRoundTrip(m: nat)
    requires m > 0
    ensures var s := "-" + Digits(m); ',' !in s && ParseLong(s) == Some(-(m as int))
  {
    var d := Digits(m);
    var s := "-" + d;
    DigitsRoundTrip(m);
    assert s[1..] == d;
    assert forall i :: 1 <= i < |s| ==> s[i] == d[i - 1];
    NoCommaInDigits(d);
    assert s[0] == '-';
  }

  /** A string of decimal digits has no comma. */
  lemma NoCommaInDigits(s: string)
    requires forall i :: 0 <= i < |s| ==> IsDigit(s[i])
    ensures ',' !in s
  {
    assert forall i :: 0 <= i < |s| ==> s[i] != ',';
  }
}
