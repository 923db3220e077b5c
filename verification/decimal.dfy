/** Unpadded decimal notation of natural numbers, as Rust's `format!("{}")` prints a `u8`,
    together with the reader a terminal uses to get the number back. */
module Decimal {
  import opened Wrappers

  predicate IsDigit(c: char) {
    '0' <= c <= '9'
  }

  predicate AllDigits(s: seq<char>) {
    forall i :: 0 <= i < |s| ==> IsDigit(s[i])
  }

  function DigitChar(d: nat): (c: char)
    requires d < 10
    ensures IsDigit(c)
  {
    ('0' as int + d) as char
  }

  function DigitValue(c: char): (d: nat)
    requires IsDigit(c)
    ensures d < 10
  {
    c as int - '0' as int
  }

  /** The decimal digits of `n`, most significant first, without leading zeros. */
  function DecimalString(n: nat): (s: seq<char>)
    decreases n
  {
    if n < 10 then [DigitChar(n)]
    else DecimalString(n / 10) + [DigitChar(n % 10)]
  }

  /** Decimal text is a non-empty run of digits without a leading zero, a single digit exactly
      for the numbers below ten. */
  lemma {:induction false} DecimalDigits(n: nat)
    ensures var s := DecimalString(n);
      && 1 <= |s| && AllDigits(s)
      && (|s| > 1 ==> s[0] != '0')
      && (n < 10 <==> |s| == 1)
    decreases n
  {
    if n >= 10 {
      DecimalDigits(n / 10);
    }
  }

  /** The number a string of digits denotes, read most significant digit first. */
  function DigitsValue(s: seq<char>): nat
    requires AllDigits(s)
  {
    if |s| == 0 then 0
    else DigitsValue(s[..|s| - 1]) * 10 + DigitValue(s[|s| - 1])
  }

  /** The length of the longest prefix of `s` that consists of digits. */
  function DigitSpan(s: seq<char>): (k: nat)
    ensures k <= |s|
    ensures AllDigits(s[..k])
    ensures k < |s| ==> !IsDigit(s[k])
  {
    if |s| == 0 || !IsDigit(s[0]) then 0
    else 1 + DigitSpan(s[1..])
  }

  /** Reads a decimal number from the front of `s`, returning it and the unread rest;
      `None` when `s` does not start with a digit. */
  function ParseNumber(s: seq<char>): (r: Option<(nat, seq<char>)>)
    ensures r.Some? <==> |s| > 0 && IsDigit(s[0])
    ensures r.Some? ==> |r.value.1| < |s| && r.value.1 == s[|s| - |r.value.1|..]
    ensures r.Some? ==> r.value.1 == [] || !IsDigit(r.value.1[0])
  {
    var k := DigitSpan(s);
    if k == 0 then None else Some((DigitsValue(s[..k]), s[k..]))
  }

  /** Reading back the digits of `n` gives `n`. */
  lemma {:induction false} DigitsValueOfDecimal(n: nat)
    ensures AllDigits(DecimalString(n)) && DigitsValue(DecimalString(n)) == n
    decreases n
  {
    var s := DecimalString(n);
    DecimalDigits(n);
    if n >= 10 {
      DigitsValueOfDecimal(n / 10);
      assert s[..|s| - 1] == DecimalString(n / 10);
    }
  }

  /** The digit span stops exactly at the end of a digit string that is followed by a non-digit. */
  lemma {:induction false} DigitSpanOfDigits(ds: seq<char>, rest: seq<char>)
    requires AllDigits(ds)
    requires rest == [] || !IsDigit(rest[0])
    ensures DigitSpan(ds + rest) == |ds|
    decreases |ds|
  {
    if |ds| > 0 {
      assert (ds + rest)[1..] == ds[1..] + rest;
      DigitSpanOfDigits(ds[1..], rest);
    }
  }

  /** Round trip: the decimal text of `n`, followed by anything that is not a digit,
      reads back as `n` with that rest left over. */
  lemma ParseDecimal(n: nat, rest: seq<char>)
    requires rest == [] || !IsDigit(rest[0])
    ensures ParseNumber(DecimalString(n) + rest) == Some((n, rest))
  {
    var ds := DecimalString(n);
    DigitSpanOfDigits(ds, rest);
    assert (ds + rest)[..|ds|] == ds;
    assert (ds + rest)[|ds|..] == rest;
    DigitsValueOfDecimal(n);
  }

  /** A byte prints as at most three digits, and as exactly one, two or three digits by magnitude. */
  lemma {:induction false} ByteWidth(n: nat)
    requires n < 256
    ensures |DecimalString(n)| == (if n < 10 then 1 else if n < 100 then 2 else 3)
  {
    if n >= 10 {
      assert |DecimalString(n)| == |DecimalString(n / 10)| + 1;
    }
  }
}
