/** Facts about division that the solver does not find by itself. */
module Arithmetic {
  lemma SplitModulo(v: nat, p: nat)
    requires p > 0
    ensures v % (256 * p) == 256 * ((v / 256) % p) + v % 256
  {
    var q, r := v / 256, v % 256;
    var k, m := q / p, q % p;
    assert v == 256 * q + r && q == p * k + m;
    var low := 256 * m + r;
    assert v == (256 * p) * k + low by {
      assert 256 * (p * k) == (256 * p) * k;
    }
    assert 0 <= low < 256 * p;
    ModuloIs(v, 256 * p, k, low);
  }

  lemma ModuloIs(v: nat, d: nat, k: nat, r: nat)
    requires d > 0 && v == d * k + r && r < d
    ensures v % d == r && v / d == k
  {
    var q, m := v / d, v % d;
    assert v == d * q + m && 0 <= m < d;
    SmallMultiple(d, q - k);
    assert d * (q - k) == d * q - d * k;
  }

  lemma SmallMultiple(d: int, x: int)
    requires d > 0
    ensures -d < d * x < d ==> x == 0
  {
    if x >= 1 {
      assert d * x == d * (x - 1) + d && d * (x - 1) >= 0;
    } else if x <= -1 {
      assert d * x == -(d * (-x - 1)) - d && d * (-x - 1) >= 0;
    }
  }

  lemma MulAssociates(a: nat, b: nat, c: nat)
    ensures (a * b) * c == a * (b * c)
  {
  }

  lemma MulDistributes(a: nat, b: nat, c: nat)
    ensures a * (b + c) == a * b + a * c
  {
  }

  /** Reducing first by a multiple of m does not change the remainder modulo m. */
  lemma ModuloOfModulo(v: nat, d: nat, m: nat)
    requires m > 0 && d > 0 && d % m == 0
    ensures (v % d) % m == v % m
  {
    var k, r, c := v / d, v % d, d / m;
    var q, t := r / m, r % m;
    assert v == d * k + r && d == m * c && r == m * q + t;
    MulAssociates(m, c, k);
    MulDistributes(m, c * k, q);
    ModuloIs(v, m, c * k + q, t);
  }
}
