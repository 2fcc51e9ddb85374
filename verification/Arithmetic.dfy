/** Quotients and remainders with a divisor that is not a literal. */
module Arithmetic {

  lemma FarMultiple(d: int, t: int)
    requires d > 0
    ensures t >= 1 ==> d * t >= d
    ensures t <= -1 ==> d * t <= -d
  {
  }

  lemma Divides(x: int, d: int, k: int, r: int)
    requires d > 0 && 0 <= r < d && x == d * k + r
    ensures x / d == k && x % d == r
  {
    FarMultiple(d, k - x / d);
    assert x % d - r == d * (k - x / d);
  }

  lemma Shifted(x: int, d: int, t: int)
    requires d > 0
    ensures (x + t * d) % d == x % d
  {
    Divides(x + t * d, d, x / d + t, x % d);
  }

  /** Fewer than `d` apart and equal modulo `d` means equal. */
  lemma SameRemainder(x: int, y: int, d: int)
    requires d > 0 && x % d == y % d && -d < x - y < d
    ensures x == y
  {
    FarMultiple(d, x / d - y / d);
    assert x - y == d * (x / d - y / d);
  }
}
