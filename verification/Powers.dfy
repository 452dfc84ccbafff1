/** Integer powers. */
module Powers {
  function Pow(base: nat, exponent: nat): nat {
    if exponent == 0 then 1 else base * Pow(base, exponent - 1)
  }

  lemma {:induction false} PowPositive(base: nat, exponent: nat)
    requires 1 <= base
    ensures 1 <= Pow(base, exponent)
    ensures 1 <= exponent ==> base <= Pow(base, exponent)
  {
    if exponent != 0 {
      PowPositive(base, exponent - 1);
      assert base * Pow(base, exponent - 1) >= base * 1;
    }
  }

  lemma {:induction false} PowSquare(base: nat, half: nat)
    ensures Pow(base, 2 * half) == Pow(base * base, half)
  {
    if half != 0 {
      PowSquare(base, half - 1);
      assert Pow(base, 2 * half) == base * (base * Pow(base, 2 * (half - 1)));
      assert base * (base * Pow(base, 2 * (half - 1))) == (base * base) * Pow(base, 2 * (half - 1));
    }
  }

  lemma {:induction false} PowAdd(base: nat, a: nat, b: nat)
    ensures Pow(base, a + b) == Pow(base, a) * Pow(base, b)
  {
    if a != 0 {
      PowAdd(base, a - 1, b);
      assert base * (Pow(base, a - 1) * Pow(base, b)) == (base * Pow(base, a - 1)) * Pow(base, b);
    }
  }

  lemma {:induction false} PowMonotone(base: nat, a: nat, b: nat)
    requires 1 <= base && a <= b
    ensures Pow(base, a) <= Pow(base, b)
  {
    PowAdd(base, a, b - a);
    PowPositive(base, b - a);
    PowPositive(base, a);
    AtLeast(Pow(base, a), Pow(base, b - a));
  }

  lemma AtLeast(x: nat, y: nat)
    requires 1 <= y
    ensures x <= x * y
  {
  }

  /** The odd step of repeated squaring. */
  lemma PowOdd(result: nat, factor: nat, exp: nat)
    requires exp % 2 == 1
    ensures result * Pow(factor, exp) == (result * factor) * Pow(factor, exp - 1)
  {
    assert result * (factor * Pow(factor, exp - 1)) == (result * factor) * Pow(factor, exp - 1);
  }

  /** A factor still to be used cannot exceed the final product. */
  lemma FactorBound(result: nat, factor: nat, exp: nat)
    requires 1 <= exp && 1 <= result
    ensures factor >= 1 ==> factor <= result * Pow(factor, exp) && result * factor <= result * Pow(factor, exp)
  {
    if factor >= 1 {
      PowPositive(factor, exp);
      AtLeast(Pow(factor, exp), result);
      assert result * factor <= result * Pow(factor, exp);
    }
  }
}
