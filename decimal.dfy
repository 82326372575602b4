/** Decimal rendering of a natural number: the one piece of Rust's `format!`
    machinery that the colour conversion relies on, when it writes the SGR
    parameter `n` of `ESC [ n m` in base ten. */
module Decimal {

  predicate IsDigit(c: char) {
    '0' <= c <= '9'
  }

  predicate AllDigits(r: string) {
    forall k :: 0 <= k < |r| ==> IsDigit(r[k])
  }

  /** The character of a single decimal digit. */
  function DigitChar(d: nat): (c: char)
    requires d < 10
    ensures IsDigit(c) && c as int - '0' as int == d
  {
    ('0' as int + d) as char
  }

  /** `n` written in base ten, most significant digit first, without
      leading zeros (the way `{}` formats an unsigned integer). */
  function Render(n: nat): (r: string)
    ensures 1 <= |r| && AllDigits(r)
    ensures r[0] == '0' <==> n == 0
    decreases n
  {
    if n < 10 then [DigitChar(n)] else Render(n / 10) + [DigitChar(n % 10)]
  }

  /** The number a string of decimal digits denotes; the inverse of Render. */
  function Value(r: string): nat
    requires AllDigits(r)
  {
    if r == [] then 0 else 10 * Value(r[..|r| - 1]) + (r[|r| - 1] as int - '0' as int)
  }

  /** Rendering loses nothing: reading the digits back gives the number. */
  lemma {:induction false} ValueOfRender(n: nat)
    ensures Value(Render(n)) == n
  {
    if n >= 10 {
      var r := Render(n);
      assert r[..|r| - 1] == Render(n / 10);
      ValueOfRender(n / 10);
    }
  }

  /** Two digits for 10..99, three for 100..999: this is what makes a colour
      escape five or six characters long. */
  lemma {:induction false} RenderLength(n: nat)
    ensures n < 10 ==> |Render(n)| == 1
    ensures 10 <= n < 100 ==> |Render(n)| == 2
    ensures 100 <= n < 1000 ==> |Render(n)| == 3
  {
    if n >= 10 {
      RenderLength(n / 10);
    }
  }
}
