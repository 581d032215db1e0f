/** The few facts of integer arithmetic the model needs and the verifier does not find alone. */
module Arith {

  function Min(a: nat, b: nat): nat {
    if a <= b then a else b
  }

  lemma MulMonotone(x: int, y: int, d: int)
    requires x <= y && d >= 0
    ensures x * d <= y * d
  {
  }

  lemma MulGap(x: int, y: int, d: int)
    requires x < y && d >= 0
    ensures x * d + d <= y * d
  {
    MulMonotone(x + 1, y, d);
  }

  /** Quotient and remainder are the only way to write `a` over `d`. */
  lemma UniqueDivision(a: int, d: nat, q: int, r: nat)
    requires r < d && a == q * d + r
    ensures a / d == q && a % d == r
  {
    var q', r' := a / d, a % d;
    assert a == q' * d + r' && 0 <= r' < d;
    if q > q' {
      MulGap(q', q, d);
      assert false;
    } else if q < q' {
      MulGap(q, q', d);
      assert false;
    }
  }

  lemma QuotientBounds(a: nat, d: nat, low: nat, high: nat)
    requires d > 0 && low * d <= a < high * d
    ensures low <= a / d < high
  {
    var q := a / d;
    assert a == q * d + a % d;
    if q >= high { MulMonotone(high, q, d); }
    if q < low { MulGap(q, low, d); }
  }

  lemma QuotientMonotone(a: nat, b: nat, d: nat)
    requires d > 0 && a <= b
    ensures a / d <= b / d
  {
    FloorMultiple(b, d);
    MulGap(b / d, b / d + 1, d);
    QuotientBounds(a, d, 0, b / d + 1);
  }

  lemma FloorMultiple(a: nat, d: nat)
    requires d > 0
    ensures a - a % d == a / d * d
  {
  }

  /** Dividing twice is dividing by the product. */
  lemma DivDiv(x: nat, a: nat, b: nat)
    requires a > 0 && b > 0
    ensures a * b > 0 && x / a / b == x / (a * b)
  {
    var q, r := x / a, x % a;
    var q2, r2 := q / b, q % b;
    assert x == q * a + r && q == q2 * b + r2;
    assert q * a == q2 * (a * b) + r2 * a by {
      assert (q2 * b + r2) * a == (q2 * b) * a + r2 * a;
      assert (q2 * b) * a == q2 * (a * b);
    }
    MulGap(r2, b, a);
    UniqueDivision(x, a * b, q2, r2 * a + r);
  }

  /** Scaling both sides of a remainder. */
  lemma ModScale(a: nat, d: nat, scale: nat)
    requires d > 0 && scale > 0
    ensures d * scale > 0 && a * scale % (d * scale) == a % d * scale
  {
    var q, r := a / d, a % d;
    assert a * scale == q * (d * scale) + r * scale by {
      assert a == q * d + r;
      assert (q * d + r) * scale == (q * d) * scale + r * scale;
      assert (q * d) * scale == q * (d * scale);
    }
    MulGap(r, d, scale);
    UniqueDivision(a * scale, d * scale, q, r * scale);
  }
}
