/** A few facts about ratios of whole numbers. */
module Ratios {

  lemma UnitRatio(p: nat, q: nat)
    requires 0 < q && p <= q
    ensures 0.0 <= p as real / q as real <= 1.0
    ensures p as real / q as real == 1.0 <==> p == q
  {
    var r, n := p as real / q as real, q as real;
    assert r * n == p as real;
    CancelPositive(r, 0.0, n);
    CancelPositive(1.0, r, n);
    CancelPositive(r, 1.0, n);
  }

  lemma CancelPositive(a: real, b: real, t: real)
    requires t > 0.0
    ensures a * t >= b * t <==> a >= b
  {
    assert a * t - b * t == (a - b) * t;
  }

  /** A percentage compared in whole numbers. */
  lemma RatioTest(p: nat, q: nat, t: int)
    requires q > 0
    ensures p * 100 >= t * q <==> p as real / q as real * 100.0 >= t as real
  {
    var s := p as real / q as real;
    var qr := q as real;
    assert s * qr == p as real;
    assert (s * 100.0) * qr == (s * qr) * 100.0;
    assert (t * q) as real == t as real * qr;
    CancelPositive(s * 100.0, t as real, qr);
  }

  lemma DivideBetween(total: real, n: real, low: real, high: real)
    requires n > 0.0 && low * n <= total <= high * n
    ensures low <= total / n <= high
  {
    var q := total / n;
    assert q * n == total;
    CancelPositive(q, low, n);
    CancelPositive(high, q, n);
  }

  lemma HalvesCancel(x: real, y: real)
    requires y > 0.0
    ensures (2.0 * x) / (2.0 * y) == x / y
  {
    var q := x / y;
    assert q * y == x;
    assert q * (2.0 * y) == 2.0 * x;
  }
}
