/** `std::to_string` of a size, and reading it back. */
module Decimal {
  import opened Strings

  function Digit(d: nat): char
    requires d < 10
  {
    "0123456789"[d]
  }

  function DigitValue(c: char): (r: Option<nat>)
    ensures r.Some? ==> r.value < 10
  {
    if '0' <= c <= '9' then Some((c - '0') as nat) else None
  }

  function Print(n: nat): string {
    if n < 10 then [Digit(n)] else Print(n / 10) + [Digit(n % 10)]
  }

  function Parse(s: string): Option<nat> {
    if s == "" then None
    else
      var last := |s| - 1;
      match DigitValue(s[last])
      case None => None
      case Some(d) =>
        if last == 0 then Some(d)
        else match Parse(s[..last])
          case None => None
          case Some(n) => Some(10 * n + d)
  }

  lemma DigitRoundTrip(d: nat)
    requires d < 10
    ensures DigitValue(Digit(d)) == Some(d)
  {
  }

  lemma {:induction false} ParseOfPrint(n: nat)
    ensures Parse(Print(n)) == Some(n)
  {
    hide Digit, DigitValue;
    DigitRoundTrip(n % 10);
    if n >= 10 {
      ParseOfPrint(n / 10);
      assert Print(n)[..|Print(n)| - 1] == Print(n / 10);
      assert Print(n / 10) != "";
    }
  }

  /** Digits only, without a leading zero. */
  lemma {:induction false} PrintIsDigits(n: nat)
    ensures Print(n) != "" && forall i :: 0 <= i < |Print(n)| ==> '0' <= Print(n)[i] <= '9'
    ensures Print(n)[0] == '0' <==> n == 0
  {
    if n >= 10 {
      PrintIsDigits(n / 10);
    }
  }
}
