/** Products and quotients of natural numbers, proved by counting up so that no proof needs more. */
module Arithmetic {
  lemma {:induction false} Product(a: nat, b: nat, c: nat)
    requires a <= b
    ensures a * c <= b * c
    decreases b
  {
    if a < b {
      Product(a, b - 1, c);
      assert (b - 1) * c == b * c - c;
    }
  }

  lemma {:induction false} ProductStep(k: nat, i: nat, j: nat)
    requires i < j
    ensures k * i + k <= k * j
    decreases j
  {
    assert k * (j - 1) == k * j - k;
    if i < j - 1 { ProductStep(k, i, j - 1); }
  }

  lemma DivAtLeast(a: nat, b: nat, y: nat)
    requires b > 0
    ensures y <= a / b <==> y * b <= a
  {
    var q, r := a / b, a % b;
    assert a == q * b + r;
    if y <= q { Product(y, q, b); } else {
      Product(q + 1, y, b);
      assert (q + 1) * b == q * b + b;
    }
  }

  /** Quotient and remainder are the only such numbers. */
  lemma DivModIs(a: nat, b: nat, q: nat, r: nat)
    requires b > 0 && r < b && a == q * b + r
    ensures a / b == q && a % b == r
  {
    DivAtLeast(a, b, q);
    DivAtLeast(a, b, q + 1);
    assert (q + 1) * b == q * b + b;
    assert a == a / b * b + a % b;
  }
}
