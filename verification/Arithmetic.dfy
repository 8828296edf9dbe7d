/** The few facts about division and products that the index arithmetic needs. */
module Arithmetic {
  lemma DivBounds(e: nat, z: nat)
    requires z > 0
    ensures (e / z) * z <= e < (e / z) * z + z
  {
  }

  lemma MulLe(a: nat, b: nat, z: nat)
    requires a <= b
    ensures a * z <= b * z
  {
  }

  lemma NextMultiple(q: nat, d: nat)
    ensures (q + 1) * d == q * d + d
  {
  }

  /** The quotient is the only q whose multiple of d lies at or just below x. */
  lemma DivUnique(x: nat, q: nat, d: nat)
    requires d > 0 && q * d <= x < q * d + d
    ensures x / d == q
  {
    var p := x / d;
    DivBounds(x, d);
    NextMultiple(p, d);
    NextMultiple(q, d);
    MulLe(if p < q then p + 1 else q, q, d);
    MulLe(if q < p then q + 1 else p, p, d);
  }

  lemma DivLe(a: nat, b: nat, d: nat)
    requires a <= b && d > 0
    ensures a / d <= b / d
  {
    DivBounds(a, d);
    DivBounds(b, d);
    QuotientOrder(a, b, a / d, b / d, d);
  }

  lemma QuotientOrder(a: nat, b: nat, p: nat, q: nat, d: nat)
    requires p * d <= a <= b < q * d + d
    ensures p <= q
  {
    if q < p {
      MulLe(q + 1, p, d);
      NextMultiple(q, d);
    }
  }

  lemma DivPlusMultiple(a: nat, k: nat, d: nat)
    requires d > 0
    ensures (a + k * d) / d == a / d + k
  {
    DivBounds(a, d);
    Distribute(a / d, k, d);
    DivUnique(a + k * d, a / d + k, d);
  }

  lemma Distribute(a: nat, b: nat, d: nat)
    ensures (a + b) * d == a * d + b * d
  {
  }

  lemma Remainder(m: nat, d: nat)
    requires d > 0
    ensures m == (m / d) * d + m % d && m % d < d
  {
  }

  lemma TwoDigits(q: nat, b: nat, s: nat, a: nat, r: nat)
    requires s < b && r < a
    ensures s * a + r < b * a && (q * b + s) * a + r == q * (b * a) + (s * a + r)
  {
    MulLe(s, b - 1, a);
    NextMultiple(b - 1, a);
    Distribute(q * b, s, a);
    assert (q * b) * a == q * (b * a);
  }

  lemma DivTwice(v: nat, a: nat, b: nat)
    requires a > 0 && b > 0
    ensures a * b > 0 && (v / a) / b == v / (a * b)
  {
    var p := v / a;
    Remainder(v, a);
    Remainder(p, b);
    TwoDigits(p / b, b, p % b, a, v % a);
    DivUnique(v, p / b, b * a);
  }

  lemma DivOfMultiple(k: nat, d: nat)
    requires d > 0
    ensures (k * d) / d == k
  {
    DivPlusMultiple(0, k, d);
  }
}
