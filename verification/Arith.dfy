/** Facts about products and truncating quotients of naturals. */
module Arith {

  const U32: nat := 0x1_0000_0000

  /** What is left of a natural in a 32-bit unsigned word. */
  function Wrap(x: nat): nat { x % U32 }

  /** The truncating quotient of unsigned words. */
  function Quotient(a: nat, b: nat): (q: nat)
    requires b > 0
    ensures b * q <= a < b * q + b
  {
    DivBounds(a, b);
    a / b
  }

  lemma MulMonotone(a: nat, b: nat, c: nat)
    requires a <= b
    ensures a * c <= b * c
  {
  }

  lemma DivBounds(s: nat, n: nat)
    requires n > 0
    ensures 0 <= s / n && n * (s / n) <= s < n * (s / n) + n
  {
  }

  /** A quotient is determined by the multiple of the divisor just below the dividend. */
  lemma QuotientAtLeast(s: nat, n: nat, q: nat)
    requires n > 0 && q * n <= s
    ensures q <= Quotient(s, n)
  {
    hide Quotient;
    if Quotient(s, n) < q {
      MulMonotone(Quotient(s, n) + 1, q, n);
    }
  }

  lemma QuotientAtMost(s: nat, n: nat, q: nat)
    requires n > 0 && s < q * n + n
    ensures Quotient(s, n) <= q
  {
    hide Quotient;
    if Quotient(s, n) > q {
      MulMonotone(q + 1, Quotient(s, n), n);
    }
  }

  lemma QuotientMonotone(a: nat, b: nat, d: nat)
    requires a <= b && d > 0
    ensures Quotient(a, d) <= Quotient(b, d)
  {
    hide Quotient;
    QuotientAtLeast(b, d, Quotient(a, d));
  }

  lemma WrapBounds(n: nat)
    ensures Wrap(n) <= n && Wrap(n) < U32
    ensures n < U32 ==> Wrap(n) == n && n % U32 == n
    ensures n >= U32 ==> Wrap(n) <= n - U32
  {
  }

  /** The quotient of what is left of a number in a word is that of the number itself exactly when the number fits. */
  lemma WordQuotient(n: nat, d: nat)
    requires 0 < d < U32
    ensures Quotient(Wrap(n), d) <= Quotient(n, d)
    ensures Quotient(Wrap(n), d) == Quotient(n, d) <==> n < U32
  {
    WrapBounds(n);
    QuotientMonotone(Wrap(n), n, d);
    hide Wrap;
    if n >= U32 {
      hide Quotient;
      var q := Quotient(n, d);
      assert d * q <= n < d * q + d;
      assert q > 0;
      assert d * (q - 1) == d * q - d && (q - 1) * d == d * (q - 1);
      QuotientAtMost(Wrap(n), d, q - 1);
    }
  }

  lemma WrapIff(n: nat)
    ensures Wrap(n) == n <==> n < U32
  {
  }

  lemma WrapOfSum(a: nat, b: nat)
    ensures Wrap(Wrap(a) + Wrap(b)) == Wrap(a + b)
  {
  }

  lemma WrapTwice(a: nat, b: nat, c: nat)
    ensures Wrap(Wrap(a + b) + c) == Wrap(a + b + c)
  {
  }
}
