/** `SubscriptRepresentation::to_subscript` for `usize` in `src/utils.rs`:
    the decimal text of a number with every digit replaced by its Unicode
    subscript form, U+2080 to U+2089. */
module Subscript {
  import opened Decimal

  predicate IsSubscriptDigit(c: char) {
    '₀' <= c <= '₉'
  }

  /** The per-character map: a digit becomes its subscript, anything else
      is kept. */
  function SubscriptChar(c: char): (r: char)
    ensures IsDigit(c) ==> IsSubscriptDigit(r) && r as int == 0x2080 + DigitValue(c)
    ensures !IsDigit(c) ==> r == c
  {
    match c
    case '0' => '₀'
    case '1' => '₁'
    case '2' => '₂'
    case '3' => '₃'
    case '4' => '₄'
    case '5' => '₅'
    case '6' => '₆'
    case '7' => '₇'
    case '8' => '₈'
    case '9' => '₉'
    case _ => c
  }

  function MapChars(s: string): (r: string)
    ensures |r| == |s|
    ensures forall i :: 0 <= i < |s| ==> r[i] == SubscriptChar(s[i])
  {
    seq(|s|, i requires 0 <= i < |s| => SubscriptChar(s[i]))
  }

  /** `n.to_subscript()`: each decimal digit `d` of `n`, left to right,
      becomes the character U+2080 + `d`. */
  function ToSubscript(n: nat): (r: string)
    ensures |r| == |ToString(n)|
    ensures forall i :: 0 <= i < |r| ==> r[i] as int == 0x2080 + DigitValue(ToString(n)[i])
  {
    MapChars(ToString(n))
  }

  /** The inverse map, from a subscript digit back to its ASCII digit. */
  function AsciiDigit(c: char): (r: char)
    requires IsSubscriptDigit(c)
    ensures IsDigit(r)
  {
    (c as int - 0x2080 + '0' as int) as char
  }

  /** The output uses only the ten subscript digits: the fallback branch of
      the character map is never taken. */
  lemma ToSubscriptAlphabet(n: nat)
    ensures forall i :: 0 <= i < |ToSubscript(n)| ==> IsSubscriptDigit(ToSubscript(n)[i])
  {
  }

  /** Mapping each subscript back to its ASCII digit recovers `n.to_string()`. */
  lemma ToSubscriptRecoversDecimal(n: nat)
    ensures var r := ToSubscript(n);
      (forall i :: 0 <= i < |r| ==> IsSubscriptDigit(r[i])) &&
      seq(|r|, i requires 0 <= i < |r| && IsSubscriptDigit(r[i]) => AsciiDigit(r[i])) == ToString(n)
  {
  }

  /** Distinct numbers render to distinct subscript strings. */
  lemma ToSubscriptInjective(a: nat, b: nat)
    requires ToSubscript(a) == ToSubscript(b)
    ensures a == b
  {
    ToSubscriptRecoversDecimal(a);
    ToSubscriptRecoversDecimal(b);
    ToStringInjective(a, b);
  }

  /** Zero renders as the single character U+2080. */
  lemma ZeroSubscript()
    ensures ToSubscript(0) == "₀"
  {
  }
}
