/** Decimal text of `usize` values, as Rust's `usize::from_str` reads it and
    `usize::to_string` writes it, on a 64-bit target. */
module Decimal {
  import opened Wrappers

  /** The largest `usize` on a 64-bit target. */
  const UsizeMax: nat := 0xFFFF_FFFF_FFFF_FFFF

  predicate IsDigit(c: char) {
    '0' <= c <= '9'
  }

  predicate AllDigits(s: string) {
    forall i :: 0 <= i < |s| ==> IsDigit(s[i])
  }

  function DigitValue(c: char): (d: nat)
    requires IsDigit(c)
    ensures d < 10
  {
    c as int - '0' as int
  }

  function DigitChar(d: nat): (c: char)
    requires d < 10
    ensures IsDigit(c) && DigitValue(c) == d
  {
    (d + '0' as int) as char
  }

  /** The number an ASCII digit string denotes, most significant digit first. */
  function DigitsValue(s: string): nat
    requires AllDigits(s)
    decreases |s|
  {
    if |s| == 0 then 0 else DigitsValue(s[..|s| - 1]) * 10 + DigitValue(s[|s| - 1])
  }

  /** The text `usize::from_str` reads as digits: the input without its one
      optional leading `+`. */
  function Numeral(s: string): (d: string)
    ensures d == s || (|s| > 0 && s[0] == '+' && [s[0]] + d == s)
  {
    if |s| > 0 && s[0] == '+' then s[1..] else s
  }

  /** `usize::from_str`: an optional leading `+`, then one or more ASCII
      digits (leading zeros allowed) whose value fits in a `usize`. Anything
      else, the empty string and a lone `+` included, is an error. */
  function ParseUsize(s: string): (r: Option<nat>)
    ensures r.Some? <==> |Numeral(s)| > 0 && AllDigits(Numeral(s)) && DigitsValue(Numeral(s)) <= UsizeMax
    ensures r.Some? ==> r.value == DigitsValue(Numeral(s)) && r.value <= UsizeMax
    ensures r.Some? ==> |s| > 0 && (s[0] == '+' ==> |s| > 1)
    ensures r.Some? ==> forall i :: 0 <= i < |s| ==> IsDigit(s[i]) || (i == 0 && s[i] == '+')
  {
    var digits := Numeral(s);
    if |digits| == 0 || !AllDigits(digits) then None
    else
      var v := DigitsValue(digits);
      if v <= UsizeMax then Some(v) else None
  }

  /** A leading zero does not change the value of a digit string. */
  lemma {:induction false} LeadingZeroValue(s: string)
    requires AllDigits(s)
    ensures AllDigits(['0'] + s) && DigitsValue(['0'] + s) == DigitsValue(s)
    decreases |s|
  {
    var t := ['0'] + s;
    assert AllDigits(t) by {
      forall i | 0 <= i < |t| ensures IsDigit(t[i]) {
        if i > 0 { assert t[i] == s[i - 1]; }
      }
    }
    if |s| > 0 {
      var init := s[..|s| - 1];
      assert AllDigits(init) by {
        forall i | 0 <= i < |init| ensures IsDigit(init[i]) { assert init[i] == s[i]; }
      }
      LeadingZeroValue(init);
      assert t[..|t| - 1] == ['0'] + init;
      assert t[|t| - 1] == s[|s| - 1];
    }
  }

  /** `from_str` reads past leading zeros: padding a numeral of digits with
      a zero gives the same result. */
  lemma ParseUsizeLeadingZero(s: string)
    requires |s| > 0 && AllDigits(s)
    ensures ParseUsize(['0'] + s) == ParseUsize(s)
  {
    LeadingZeroValue(s);
    assert Numeral(['0'] + s) == ['0'] + s;
  }

  /** A leading `+` does not change the result for an unsigned numeral. */
  lemma ParseUsizeLeadingPlus(s: string)
    requires |s| == 0 || s[0] != '+'
    ensures ParseUsize(['+'] + s) == ParseUsize(s)
  {
    assert (['+'] + s)[1..] == s;
  }

  /** `usize::to_string`: the canonical decimal text, without leading zeros. */
  function ToString(n: nat): (s: string)
    ensures |s| >= 1 && AllDigits(s)
    ensures |s| > 1 ==> s[0] != '0'
    ensures DigitsValue(s) == n
    decreases n
  {
    if n < 10 then [DigitChar(n)]
    else
      var s := ToString(n / 10) + [DigitChar(n % 10)];
      assert s[..|s| - 1] == ToString(n / 10);
      s
  }

  /** Parsing the canonical text of a `usize` gives the value back. */
  lemma ParseToString(n: nat)
    requires n <= UsizeMax
    ensures ParseUsize(ToString(n)) == Some(n)
  {
  }

  /** Distinct numbers have distinct decimal texts. */
  lemma ToStringInjective(a: nat, b: nat)
    requires ToString(a) == ToString(b)
    ensures a == b
  {
  }

  /** Decimal text contains no separator the locator grammar uses. */
  lemma DigitsHaveNoSeparators(s: string)
    requires AllDigits(s)
    ensures ':' !in s && '-' !in s
  {
  }
}
