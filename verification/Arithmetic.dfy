/** Minima, and division with remainder for divisors the verifier does not know. */
module Arithmetic {

  function Min(a: nat, b: nat): nat { if a <= b then a else b }

  lemma TimesGrows(a: int, b: int, d: nat)
    requires a <= b
    ensures a * d <= b * d
  {
    assert b * d == a * d + (b - a) * d;
  }

  lemma OneMoreTime(a: int, d: int)
    ensures (a + 1) * d == a * d + d
  {}

  lemma DivisionIs(a: int, q: int, r: nat, d: nat)
    requires r < d && a == q * d + r
    ensures a / d == q && a % d == r
  {
    var q', r' := a / d, a % d;
    assert q' * d + r' == q * d + r;
    var gap := q - q';
    assert gap * d == q * d - q' * d;
    assert gap >= 1 ==> gap * d >= d;
    assert gap <= -1 ==> gap * d + d <= 0;
  }
}
