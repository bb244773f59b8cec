/**
 `pd.to_numeric(..., errors='coerce')` on a text cell that should hold a
 whole number: an optional sign followed by decimal digits is read as that
 integer, anything else becomes missing.
 */
module Numeric {
  import opened Wrappers
  import opened Text

  predicate IsSign(c: char) {
    c == '+' || c == '-'
  }

  /** Text read as an integer: an optional sign, then at least one ASCII digit. */
  predicate IsIntegerText(t: string) {
    if |t| > 0 && IsSign(t[0]) then |t| > 1 && AllDigits(t[1..])
    else |t| > 0 && AllDigits(t)
  }

  function ParseInt(t: string): (r: Option<int>)
    ensures r.Some? <==> IsIntegerText(t)
    ensures r.Some? && |t| > 0 && t[0] == '-' ==> r.value <= 0
    ensures r.Some? && |t| > 0 && t[0] != '-' ==> r.value >= 0
  {
    if |t| > 0 && IsSign(t[0]) then
      if |t| > 1 && AllDigits(t[1..]) then
        var v: int := DigitsValue(t[1..]);
        Some(if t[0] == '-' then -v else v)
      else None
    else if |t| > 0 && AllDigits(t) then Some(DigitsValue(t) as int)
    else None
  }

  /** Canonical spelling of an integer: a minus sign only for negatives, no leading zeros. */
  function IntText(n: int): string {
    if n < 0 then "-" + NatText(-n) else NatText(n)
  }

  /** Reading back the canonical spelling of an integer gives the integer. */
  lemma ParseIntText(n: int)
    ensures ParseInt(IntText(n)) == Some(n)
  {
    if n < 0 {
      NatTextValue(-n);
      assert IntText(n)[1..] == NatText(-n);
    } else {
      NatTextValue(n);
    }
  }
}
