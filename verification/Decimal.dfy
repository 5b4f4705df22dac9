/** Decimal numerals as Rust formats and parses them. */
module Decimal {
  import opened Wrappers
  import Text

  predicate AllDigits(s: string) { forall i | 0 <= i < |s| :: Text.IsDigit(s[i]) }

  function DigitChar(d: nat): (c: char)
    requires d < 10
    ensures Text.IsDigit(c)
  {
    (d + '0' as int) as char
  }

  /** `n.to_string()` for an unsigned number. */
  function NatToString(n: nat): (s: string)
    ensures s != "" && AllDigits(s)
  {
    if n < 10 then [DigitChar(n)] else NatToString(n / 10) + [DigitChar(n % 10)]
  }

  function DigitsValue(s: string): nat
    requires AllDigits(s)
  {
    if s == "" then 0 else 10 * DigitsValue(s[..|s| - 1]) + (s[|s| - 1] as int - '0' as int)
  }

  /** The digits of the numeral denote the number it was printed from. */
  lemma {:induction false} NumeralDenotes(n: nat)
    ensures DigitsValue(NatToString(n)) == n
  {
    if n >= 10 {
      NumeralDenotes(n / 10);
      var s := NatToString(n);
      assert s[..|s| - 1] == NatToString(n / 10);
    } else {
      assert NatToString(n)[..0] == "";
    }
  }

  lemma NumeralInjective(m: nat, n: nat)
    requires NatToString(m) == NatToString(n)
    ensures m == n
  {
    NumeralDenotes(m);
    NumeralDenotes(n);
  }

  /** `str::parse` for an unsigned type of which `max` is the largest value: an optional plus sign,
      then one or more digits, and no overflow. */
  function ParseUnsigned(s: string, max: nat): (r: Option<nat>)
    ensures r.Some? ==> r.value <= max
  {
    var digits := if s != "" && s[0] == '+' then s[1..] else s;
    if digits == "" || !AllDigits(digits) then None
    else if DigitsValue(digits) <= max then Some(DigitsValue(digits))
    else None
  }

  /** Printing then parsing is the identity up to the largest value of the type, and fails past it. */
  lemma ParsePrinted(n: nat, max: nat)
    ensures ParseUnsigned(NatToString(n), max) == if n <= max then Some(n) else None
  {
    NumeralDenotes(n);
  }

  /** Exactly the texts of digits, behind a plus sign or not, whose number fits are read, as that number. */
  lemma ParseIsExact(s: string, max: nat, n: nat)
    ensures ParseUnsigned(s, max) == Some(n) <==>
            && n <= max
            && exists digits :: (s == digits || s == "+" + digits) && digits != "" && AllDigits(digits) && DigitsValue(digits) == n
  {
    if s != "" && s[0] == '+' {
      assert s == "+" + s[1..];
      assert forall digits | s == "+" + digits :: digits == s[1..];
    }
  }
}
