/** Python's `str(i)` for an integer (the formatting inside every f-string key)
    and `int(s)` for a decimal field (the parsing of a catalog row). */
module Decimal {
  import opened Wrappers
  import opened PyStrings

  predicate IsDigit(c: char) {
    '0' <= c <= '9'
  }

  predicate AllDigits(s: string) {
    forall i :: 0 <= i < |s| ==> IsDigit(s[i])
  }

  function DigitChar(d: nat): (c: char)
    requires d < 10
    ensures IsDigit(c)
  {
    ('0' as int + d) as char
  }

  function DigitValue(c: char): (d: nat)
    requires IsDigit(c)
    ensures d < 10
    ensures DigitChar(d) == c
  {
    c as int - '0' as int
  }

  /** The decimal digits of `n`, most significant first, without leading zeros. */
  function NatToString(n: nat): (r: string)
    ensures |r| > 0 && AllDigits(r)
    ensures r[0] == '0' ==> n == 0
    decreases n
  {
    if n < 10 then [DigitChar(n)] else NatToString(n / 10) + [DigitChar(n % 10)]
  }

  /** Python's `str(i)`: a `-` sign for negative values, then the digits of `|i|`. */
  function IntToString(i: int): (r: string)
    ensures |r| > 0 && IsDigit(r[|r| - 1])
    ensures forall k :: 0 <= k < |r| ==> IsDigit(r[k]) || (k == 0 && r[k] == '-')
    ensures r[0] == '-' <==> i < 0
  {
    if i < 0 then "-" + NatToString(-i) else NatToString(i)
  }

  /** The value of a non-empty run of decimal digits (leading zeros allowed). */
  function ParseDigits(s: string): (r: Option<nat>)
    ensures r.Some? <==> |s| > 0 && AllDigits(s)
  {
    if |s| == 0 || !IsDigit(s[|s| - 1]) then None
    else if |s| == 1 then Some(DigitValue(s[0]))
    else
      match ParseDigits(s[..|s| - 1])
      case None => None
      case Some(v) =>
        assert s == s[..|s| - 1] + [s[|s| - 1]];
        Some(v * 10 + DigitValue(s[|s| - 1]))
  }

  /** The ASCII information separators U+001C..U+001F. `str.isspace()` holds
      for them, but `int()` does not skip them: it maps only non-ASCII
      whitespace to a space and then skips the C whitespace characters. */
  predicate IsInfoSeparator(c: char) {
    '\U{1C}' <= c <= '\U{1F}'
  }

  predicate HasInfoSeparator(s: string) {
    exists k :: 0 <= k < |s| && IsInfoSeparator(s[k])
  }

  /** The whitespace `int()` skips around its digits. */
  predicate IsIntSpace(c: char) {
    IsSpace(c) && !IsInfoSeparator(c)
  }

  /** Python's `int(s)` for base-10 text: surrounding whitespace is ignored,
      then an optional `+` or `-` sign and at least one digit. An information
      separator anywhere in the text makes it fail. */
  function ParseInt(s: string): (r: Option<int>)
    ensures r.Some? <==> !HasInfoSeparator(s) && IsIntText(Strip(s))
  {
    if HasInfoSeparator(s) then None else ParseSigned(Strip(s))
  }

  /** An optional sign followed by digits, with nothing around them. */
  function ParseSigned(t: string): (r: Option<int>)
    ensures r.Some? <==> IsIntText(t)
  {
    if |t| > 0 && (t[0] == '-' || t[0] == '+') then
      assert !AllDigits(t);
      match ParseDigits(t[1..])
      case None => None
      case Some(v) => var n: int := v; Some(if t[0] == '-' then -n else n)
    else
      match ParseDigits(t)
      case None => None
      case Some(v) => Some(v)
  }

  /** The text `int()` accepts once surrounding whitespace is gone. */
  predicate IsIntText(t: string) {
    || (|t| > 0 && AllDigits(t))
    || (|t| > 1 && (t[0] == '-' || t[0] == '+') && AllDigits(t[1..]))
  }

  /** Acceptance, stated without `strip()`: `int()` reads an integer text
      surrounded by the whitespace it skips as that text's value. */
  lemma ParseIntPadded(pre: string, t: string, post: string)
    requires forall k :: 0 <= k < |pre| ==> IsIntSpace(pre[k])
    requires forall k :: 0 <= k < |post| ==> IsIntSpace(post[k])
    requires IsIntText(t)
    ensures ParseInt(pre + t + post) == ParseSigned(t)
    ensures ParseInt(pre + t + post).Some?
  {
    var s := pre + t + post;
    assert IsStripped(t) by {
      assert !IsSpace(t[0]) && !IsSpace(t[|t| - 1]);
    }
    StripUnique(pre, t, post);
    forall k | 0 <= k < |s|
      ensures !IsInfoSeparator(s[k])
    {
      if k < |pre| {
        assert s[k] == pre[k];
      } else if k < |pre| + |t| {
        assert s[k] == t[k - |pre|];
      } else {
        assert s[k] == post[k - |pre| - |t|];
      }
    }
  }

  /** An information separator anywhere, even where `strip()` would remove
      it, makes `int()` fail. */
  lemma ParseIntRejectsSeparator(s: string, k: int)
    requires 0 <= k < |s| && IsInfoSeparator(s[k])
    ensures ParseInt(s) == None
  {
  }

  /** Reading back the digits of `n` gives `n`. */
  lemma {:induction false} NatRoundTrip(n: nat)
    ensures ParseDigits(NatToString(n)) == Some(n)
    decreases n
  {
    var s := NatToString(n);
    if n >= 10 {
      NatRoundTrip(n / 10);
      assert s[..|s| - 1] == NatToString(n / 10);
    }
  }

  /** `int(str(i)) == i` for every integer. */
  lemma IntRoundTrip(i: int)
    ensures ParseInt(IntToString(i)) == Some(i)
  {
    IntToStringStripped(i);
    var s := IntToString(i);
    assert !HasInfoSeparator(s) by {
      forall k | 0 <= k < |s|
        ensures !IsInfoSeparator(s[k])
      {
        assert IsDigit(s[k]) || s[k] == '-';
      }
    }
    if i < 0 {
      NegativeRoundTrip(i);
    } else {
      NatRoundTrip(i);
    }
  }

  /** Printed integers carry no surrounding whitespace. */
  lemma IntToStringStripped(i: int)
    ensures Strip(IntToString(i)) == IntToString(i)
  {
    var s := IntToString(i);
    assert !IsSpace(s[0]) && !IsSpace(s[|s| - 1]);
    StripOfStripped(s);
  }

  lemma NegativeRoundTrip(i: int)
    requires i < 0
    ensures ParseSigned(IntToString(i)) == Some(i)
  {
    var s := IntToString(i);
    NatRoundTrip(-i);
    assert s[1..] == NatToString(-i);
  }

  /** Distinct integers print differently. */
  lemma IntToStringInjective(i: int, j: int)
    ensures IntToString(i) == IntToString(j) <==> i == j
  {
    IntRoundTrip(i);
    IntRoundTrip(j);
  }

  /** Appending a digit to a positive number appends its character to the
      number's text. */
  lemma NatToStringStep(n: nat, d: nat)
    requires 0 < n && d < 10
    ensures NatToString(10 * n + d) == NatToString(n) + [DigitChar(d)]
  {
    assert (10 * n + d) / 10 == n && (10 * n + d) % 10 == d;
  }
}
