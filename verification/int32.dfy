/**
 * C#'s 32-bit `int`. Arithmetic on it is unchecked in the application, so a
 * result outside the range wraps around modulo 2^32.
 */
module Int32 {

  const Min: int := -0x8000_0000
  const Max: int := 0x7fff_ffff
  const Modulus: int := 0x1_0000_0000

  predicate InRange(x: int) {
    Min <= x <= Max
  }

  type int32 = x: int | InRange(x)

  /** The value unchecked 32-bit arithmetic yields for the mathematical result `x`. */
  function Wrap(x: int): (r: int32)
    ensures InRange(x) ==> r == x
    ensures (x - r) % Modulus == 0
  {
    (x - Min) % Modulus + Min
  }

  /** Wrap is determined by congruence: the one int32 congruent to `x`. */
  lemma WrapUnique(x: int, r: int32)
    requires (x - r) % Modulus == 0
    ensures Wrap(x) == r
  {
    var q := (x - r) / Modulus;
    assert x - r == q * Modulus;
    var y := x - Min;
    assert y == (r - Min) + q * Modulus;
    assert InRange(r);
    assert 0 <= r - Min < Modulus;
    LemmaModUnique(y, r - Min, q);
  }

  lemma LemmaModUnique(y: int, m: int, q: int)
    requires 0 <= m < Modulus
    requires y == m + q * Modulus
    ensures y % Modulus == m
  {
  }

  /** Two successive wrapped subtractions equal one wrapped subtraction of the sum. */
  lemma WrapSubtract(a: int, b: int, c: int)
    ensures Wrap(Wrap(a - b) - c) == Wrap(a - (b + c))
  {
    var w := Wrap(a - b);
    var r := Wrap(w - c);
    var k1 := (a - b - w) / Modulus;
    assert a - b - w == k1 * Modulus;
    var k2 := (w - c - r) / Modulus;
    assert w - c - r == k2 * Modulus;
    assert a - (b + c) - r == (k1 + k2) * Modulus;
    assert (a - (b + c) - r) % Modulus == 0 by {
      LemmaModUnique(a - (b + c) - r, 0, k1 + k2);
    }
    WrapUnique(a - (b + c), r);
  }
}
