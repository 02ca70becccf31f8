/** The overflow checks in front of allocations. */
module SizeChecks {
  import opened Arithmetic
  import opened Bits

  /** `stbi__mul2sizes_valid` and its relatives, for the non-negative sizes they are called with. */
  predicate Mul2Valid(a: nat, b: nat)
  {
    b == 0 || a <= INT_MAX / b
  }

  predicate AddValid(a: nat, b: nat)
  {
    a <= INT_MAX - b
  }

  predicate Mad2Valid(a: nat, b: nat, add: nat)
  {
    Mul2Valid(a, b) && AddValid(a * b, add)
  }

  predicate Mad3Valid(a: nat, b: nat, c: nat, add: nat)
  {
    Mul2Valid(a, b) && Mul2Valid(a * b, c) && AddValid(a * b * c, add)
  }

  /** Division finds exactly the products that fit. */
  lemma Mul2Exact(a: nat, b: nat)
    ensures Mul2Valid(a, b) <==> a * b <= INT_MAX
  {
    if b > 0 { DivAtLeast(INT_MAX, b, a); }
  }

  lemma Mad2Exact(a: nat, b: nat, add: nat)
    ensures Mad2Valid(a, b, add) <==> a * b + add <= INT_MAX
  {
    Mul2Exact(a, b);
  }

  lemma Mad3Exact(a: nat, b: nat, c: nat, add: nat)
    requires c > 0
    ensures Mad3Valid(a, b, c, add) <==> a * b * c + add <= INT_MAX
  {
    hide Mul2Valid;
    Mul2Exact(a, b);
    Mul2Exact(a * b, c);
    Product(1, c, a * b);
    assert c * (a * b) == a * b * c;
  }
}
