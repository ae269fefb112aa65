/** The few facts about products that the models need. */
module Arithmetic {

  lemma MultiplyMonotone(a: int, b: int, c: nat)
    requires a <= b
    ensures a * c <= b * c
  {
    assert (b - a) * c >= 0;
    Distribute(b, a, c);
  }

  lemma Distribute(a: int, b: int, c: int)
    ensures (a - b) * c == a * c - b * c
  {
  }

  /** A positive factor can be cancelled from a comparison. */
  lemma CancelFactor(a: int, b: int, c: int)
    requires c > 0
    ensures a * c <= b * c <==> a <= b
    ensures a * c == b * c <==> a == b
  {
    if a <= b {
      MultiplyMonotone(a, b, c);
    }
    if b <= a {
      MultiplyMonotone(b, a, c);
    }
    if a < b {
      MultiplyMonotone(a + 1, b, c);
      Distribute(a + 1, 1, c);
    }
    if b < a {
      MultiplyMonotone(b + 1, a, c);
      Distribute(b + 1, 1, c);
    }
  }

  lemma ProductPositive(a: nat, b: nat)
    requires a >= 1 && b >= 1
    ensures a * b >= 1
  {
    MultiplyMonotone(1, a, b);
  }
}
