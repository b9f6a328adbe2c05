/** Decimal notation of natural numbers, as string interpolation prints them. */
module Decimal {
  import opened JsText

  function DigitOf(d: nat): char
    requires d < 10
  {
    '0' + (d as char)
  }

  function ValueOf(c: char): nat
    requires IsDigit(c)
  {
    (c - '0') as nat
  }

  function Show(n: nat): (s: string)
    ensures s != [] && forall k :: 0 <= k < |s| ==> IsDigit(s[k])
  {
    if n < 10 then [DigitOf(n)] else Show(n / 10) + [DigitOf(n % 10)]
  }

  function Read(s: string): nat
    requires forall k :: 0 <= k < |s| ==> IsDigit(s[k])
  {
    if s == [] then 0 else 10 * Read(s[..|s| - 1]) + ValueOf(s[|s| - 1])
  }

  lemma {:induction false} ReadShow(n: nat)
    ensures Read(Show(n)) == n
  {
    if n < 10 {
      assert Show(n)[..0] == [];
    } else {
      ReadShow(n / 10);
      assert Show(n)[..|Show(n)| - 1] == Show(n / 10);
    }
  }

  lemma {:induction false} NoLeadingZero(n: nat)
    ensures Show(n)[0] == '0' <==> n == 0
    ensures n == 0 ==> Show(n) == "0"
  {
    if n >= 10 {
      NoLeadingZero(n / 10);
      assert Show(n)[0] == Show(n / 10)[0];
    }
  }
}
