/** Remainders of sums, for arithmetic that wraps around at a machine width. */
module Modular {

  lemma ModIs(x: int, q: int, r: int, m: nat)
    requires x == m * q + r && 0 <= r < m
    ensures x % m == r
  {
    var k := x / m - q;
    assert x == m * (x / m) + x % m;
    assert m * k == m * (x / m) - m * q;
    assert m * k == r - x % m;
    assert k > 0 ==> m * k >= m;
    assert k < 0 ==> m * k <= 0 - m;
  }

  lemma DivIs(x: int, q: int, r: int, m: nat)
    requires x == m * q + r && 0 <= r < m
    ensures x / m == q
  {
    ModIs(x, q, r, m);
    assert m * (x / m) == m * q;
  }

  /** Dividing twice is dividing by the product. */
  lemma DivDiv(v: nat, d: nat, p: nat)
    requires d > 0 && p > 0
    ensures d * p > 0 && v / d / p == v / (d * p)
  {
    var q, r := v / d / p, v / d % p;
    assert v / d == p * q + r;
    assert v == d * (v / d) + v % d;
    assert d * (p * q + r) == (d * p) * q + d * r;
    Below(d, p, r, v % d);
    DivIs(v, q, d * r + v % d, d * p);
  }

  lemma Below(d: nat, p: nat, r: nat, s: nat)
    requires r < p && s < d
    ensures 0 <= d * r + s < d * p
  {
    assert d * (r + 1) <= d * p;
  }

  lemma ModAdd(a: int, b: int, m: nat)
    requires m > 0
    ensures (a % m + b) % m == (a + b) % m
  {
    var c := a % m + b;
    var q, p := a / m, c / m;
    assert a == m * q + a % m;
    assert c == m * p + c % m;
    assert m * (p + q) == m * p + m * q;
    ModIs(a + b, p + q, c % m, m);
  }

  lemma ModShift(x: int, k: int, m: nat)
    requires m > 0
    ensures (x + m * k) % m == x % m
  {
    var q := x / m;
    assert x == m * q + x % m;
    assert m * (q + k) == m * q + m * k;
    ModIs(x + m * k, q + k, x % m, m);
  }
}
