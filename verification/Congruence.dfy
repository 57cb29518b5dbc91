/** Congruence modulo p, for products and sums of integers. */
module Congruence {

  predicate Cong(p: int, x: int, y: int)
    requires p > 0
  {
    (x - y) % p == 0
  }

  lemma MultipleIsZero(p: int, k: int)
    requires p > 0
    ensures (k * p) % p == 0
  {
    var x := k * p;
    var q, r := x / p, x % p;
    assert x == p * q + r && 0 <= r < p;
    SmallMultiple(p, k, q, r);
  }

  lemma SmallMultiple(p: int, k: int, q: int, r: int)
    requires p > 0 && 0 <= r < p && k * p == p * q + r
    ensures r == 0
  {
    var m := k - q;
    assert p * m == r;
    if m >= 1 {
      Larger(p, 1, m);
    } else if m <= -1 {
      Larger(p, m, -1);
    }
  }

  lemma Larger(p: int, a: int, b: int)
    requires p > 0 && a <= b
    ensures p * a <= p * b
  {
  }

  /** x and y differ by k times p. */
  lemma Witness(p: int, x: int, y: int, k: int)
    requires p > 0 && x - y == k * p
    ensures Cong(p, x, y)
  {
    MultipleIsZero(p, k);
  }

  lemma Quotient(p: int, x: int, y: int) returns (k: int)
    requires p > 0 && Cong(p, x, y)
    ensures x - y == k * p
  {
    k := (x - y) / p;
  }

  lemma Reduce(p: int, x: int)
    requires p > 0
    ensures Cong(p, x % p, x)
  {
    assert x % p - x == (-(x / p)) * p;
    Witness(p, x % p, x, -(x / p));
  }

  lemma Trans(p: int, x: int, y: int, z: int)
    requires p > 0 && Cong(p, x, y) && Cong(p, y, z)
    ensures Cong(p, x, z)
  {
    var k := Quotient(p, x, y);
    var l := Quotient(p, y, z);
    assert x - z == (k + l) * p;
    Witness(p, x, z, k + l);
  }

  lemma Sym(p: int, x: int, y: int)
    requires p > 0 && Cong(p, x, y)
    ensures Cong(p, y, x)
  {
    var k := Quotient(p, x, y);
    assert y - x == (-k) * p;
    Witness(p, y, x, -k);
  }

  lemma Same(p: int, x: int)
    requires p > 0
    ensures Cong(p, x, x)
  {
    Witness(p, x, x, 0);
  }

  lemma Plus(p: int, x: int, y: int, u: int, v: int)
    requires p > 0 && Cong(p, x, y) && Cong(p, u, v)
    ensures Cong(p, x + u, y + v)
    ensures Cong(p, x - u, y - v)
  {
    var k := Quotient(p, x, y);
    var l := Quotient(p, u, v);
    assert (x + u) - (y + v) == (k + l) * p;
    assert (x - u) - (y - v) == (k - l) * p;
    Witness(p, x + u, y + v, k + l);
    Witness(p, x - u, y - v, k - l);
  }

  lemma Times(p: int, x: int, y: int, u: int, v: int)
    requires p > 0 && Cong(p, x, y) && Cong(p, u, v)
    ensures Cong(p, x * u, y * v)
  {
    var k := Quotient(p, x, y);
    var l := Quotient(p, u, v);
    calc {
      x * u - y * v;
    ==
      x * (u - v) + (x - y) * v;
    ==
      x * (l * p) + (k * p) * v;
    ==
      (x * l + k * v) * p;
    }
    Witness(p, x * u, y * v, x * l + k * v);
  }

  lemma Scale(p: int, c: int, x: int, y: int)
    requires p > 0 && Cong(p, x, y)
    ensures Cong(p, c * x, c * y)
  {
    Same(p, c);
    Times(p, c, c, x, y);
  }

  lemma Square(p: int, x: int, y: int)
    requires p > 0 && Cong(p, x, y)
    ensures Cong(p, x * x, y * y)
  {
    Times(p, x, y, x, y);
  }
}
