/** Quotients and remainders of products, as far as the overflow tests on machine integers need them. */
module MachineArithmetic {
  lemma {:induction false} AtLeast(d: nat, p: nat)
    requires d >= 1
    ensures d * p >= p
  {
  }

  lemma {:induction false} Difference(q: int, k: int, d: int)
    ensures q * d - k * d == (q - k) * d
  {
  }

  lemma {:induction false} QuotientIs(x: int, d: int, q: int, r: int)
    requires d > 0 && 0 <= r < d && x == q * d + r
    ensures x / d == q && x % d == r
  {
    var k := x / d;
    Difference(q, k, d);
    if q > k {
      AtLeast(q - k, d);
    } else if q < k {
      Difference(k, q, d);
      AtLeast(k - q, d);
    }
  }

  lemma {:induction false} SmallRemainder(x: int, m: int)
    requires 0 <= x < m
    ensures x % m == x
  {
    QuotientIs(x, m, 0, x);
  }

  lemma {:induction false} SmallerProduct(q: nat, a: nat, d: nat)
    requires q >= a
    ensures q * d >= a * d
  {
    Difference(q, a, d);
  }

  /** In a type of modulus m, dividing the wrapped product back finds every overflow and nothing else. */
  lemma {:induction false} WrapDetected(a: nat, d: nat, m: nat)
    requires 0 < d && a < m
    ensures (a * d % m) / d != a <==> a * d >= m
  {
    if a * d < m {
      SmallRemainder(a * d, m);
      QuotientIs(a * d, d, a, 0);
    } else {
      var q := a * d % m;
      if q / d >= a {
        SmallerProduct(q / d, a, d);
      }
    }
  }
}
