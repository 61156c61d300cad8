/** Facts about multiplication and division that the solver does not find by itself. */
module Arithmetic {

  lemma Division(a: nat, d: nat)
    requires d > 0
    ensures a / d * d <= a < a / d * d + d
  {
  }

  lemma Scale(a: int, b: int, c: nat)
    requires a <= b
    ensures a * c <= b * c
  {
  }

  lemma ProductAtLeast(a: int, b: nat)
    requires a >= 1
    ensures b <= a * b
  {
  }

  lemma QuotientInRange(q: nat, d: nat, r: nat)
    requires r < d
    ensures (q * d + r) / d == q && (q * d + r) % d == r
  {
    var x := q * d + r;
    var e := x / d - q;
    Division(x, d);
    assert e * d == x / d * d - q * d;
    if e >= 1 {
      ProductAtLeast(e, d);
    }
  }

  lemma QuotientAtLeast(a: nat, d: nat, k: nat)
    requires d >= 1
    ensures a / d >= k <==> a >= k * d
  {
    Division(a, d);
    if a / d >= k {
      Scale(k, a / d, d);
    } else {
      Scale(a / d + 1, k, d);
    }
  }
}
