/**
 Facts about products, quotients and remainders.
 */
module Arithmetic {

  lemma {:induction false} Times(a: nat, b: nat, m: nat)
    ensures a < b ==> a * m + m <= b * m
  {
    if a < b {
      Times(a, b - 1, m);
      assert b * m == (b - 1) * m + m;
    }
  }

  lemma Division(a: nat, b: nat)
    requires b > 0
    ensures a / b * b <= a < a / b * b + b
  {
  }

  /** Between two multiples of b the remainder is the distance from the lower one. */
  lemma Remainder(a: nat, b: nat, i: nat)
    requires b > 0 && i * b <= a < i * b + b
    ensures a % b == a - i * b
  {
    var q := a / b;
    assert a == q * b + a % b;
    Times(q, i, b);
    Times(i, q, b);
  }
}
