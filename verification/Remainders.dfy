/**
 Two facts about remainders that the solver does not find by itself.
 */
module Remainders {

  lemma Remainder(x: nat, b: nat, q: nat, r: nat)
    requires b > 0 && x == q * b + r && r < b
    ensures x % b == r
  {
    var q', r' := x / b, x % b;
    assert (q' - q) * b == r - r';
    Multiples(q' - q, b);
  }

  lemma Multiples(n: int, b: nat)
    ensures n >= 1 ==> n * b >= b
    ensures n <= -1 ==> n * b + b <= 0
  {
  }
}
