/** The Ed25519 point arithmetic of ci/verify_vectors.py: extended homogeneous coordinates
    (section 5.1.4 of RFC 8032), double-and-add, and recovery of x (section 5.1.3). The modulus
    and the curve constant are parameters; nothing needs the modulus to be prime. */
module Edwards {
  import opened Congruence
  import opened Ladder

  /** (X, Y, Z, T), standing for x = X/Z, y = Y/Z, x*y = T/Z. */
  datatype Point = Point(x: int, y: int, z: int, t: int)

  const IDENTITY := Point(0, 1, 1, 0)

  /** _point_add. */
  function PointAdd(p: int, d: int, a: Point, b: Point): Point
    requires p > 0
  {
    var a1 := ((a.y - a.x) * (b.y - b.x)) % p;
    var a2 := ((a.y + a.x) * (b.y + b.x)) % p;
    var c := (2 * a.t * b.t * d) % p;
    var dd := (2 * a.z * b.z) % p;
    var e, f, g, h := a2 - a1, dd - c, dd + c, a2 + a1;
    Point((e * f) % p, (g * h) % p, (f * g) % p, (e * h) % p)
  }

  /** -X^2 + Y^2 = Z^2 + d T^2 and X Y = Z T, modulo p: the point is on the curve. */
  predicate OnCurve(p: int, d: int, a: Point)
    requires p > 0
  {
    && Cong(p, a.y * a.y - a.x * a.x, a.z * a.z + d * (a.t * a.t))
    && Cong(p, a.x * a.y, a.z * a.t)
  }

  lemma IdentityOnCurve(p: int, d: int)
    requires p > 0
    ensures OnCurve(p, d, IDENTITY)
  {
    Same(p, 1);
    Same(p, 0);
  }

  // ------------------------------------------------------------ the four factors

  /** E, F, G, H of the addition formula, before reduction and without the factor 2. */
  function EE(a: Point, b: Point): int { a.x * b.y + a.y * b.x }

  function HH(a: Point, b: Point): int { a.y * b.y + a.x * b.x }

  function FF(d: int, a: Point, b: Point): int { a.z * b.z - d * (a.t * b.t) }

  function GG(d: int, a: Point, b: Point): int { a.z * b.z + d * (a.t * b.t) }

  lemma ProductsEH(x1: int, y1: int, x2: int, y2: int)
    ensures (y1 + x1) * (y2 + x2) - (y1 - x1) * (y2 - x2) == 2 * (x1 * y2 + y1 * x2)
    ensures (y1 + x1) * (y2 + x2) + (y1 - x1) * (y2 - x2) == 2 * (y1 * y2 + x1 * x2)
  {
  }

  lemma ProductTD(t1: int, t2: int, d: int)
    ensures 2 * t1 * t2 * d == 2 * (d * (t1 * t2))
  {
  }

  /** The four intermediate values are twice E, F, G and H modulo p. */
  lemma Factors(p: int, d: int, a: Point, b: Point)
    requires p > 0
    ensures
      var a1 := ((a.y - a.x) * (b.y - b.x)) % p;
      var a2 := ((a.y + a.x) * (b.y + b.x)) % p;
      var c := (2 * a.t * b.t * d) % p;
      var dd := (2 * a.z * b.z) % p;
      && Cong(p, a2 - a1, 2 * EE(a, b))
      && Cong(p, a2 + a1, 2 * HH(a, b))
      && Cong(p, dd - c, 2 * FF(d, a, b))
      && Cong(p, dd + c, 2 * GG(d, a, b))
  {
    var m, n := (a.y - a.x) * (b.y - b.x), (a.y + a.x) * (b.y + b.x);
    Reduce(p, m);
    Reduce(p, n);
    Plus(p, n % p, n, m % p, m);
    ProductsEH(a.x, a.y, b.x, b.y);
    var u, v := 2 * a.t * b.t * d, 2 * a.z * b.z;
    Reduce(p, u);
    Reduce(p, v);
    Plus(p, v % p, v, u % p, u);
    ProductTD(a.t, b.t, d);
    assert v == 2 * (a.z * b.z);
  }

  /** The product of two reduced factors is four times the product of their halves. */
  lemma ProductOfFactors(p: int, e: int, f: int, ee: int, ff: int)
    requires p > 0 && Cong(p, e, 2 * ee) && Cong(p, f, 2 * ff)
    ensures Cong(p, (e * f) % p, 4 * (ee * ff))
  {
    Reduce(p, e * f);
    Times(p, e, 2 * ee, f, 2 * ff);
    assert (2 * ee) * (2 * ff) == 4 * (ee * ff);
    Trans(p, (e * f) % p, e * f, 4 * (ee * ff));
  }

  /** The sum is (4EF, 4GH, 4FG, 4EH) modulo p. */
  lemma SumOfPoints(p: int, d: int, a: Point, b: Point)
    requires p > 0
    ensures
      var s := PointAdd(p, d, a, b);
      var e, f, g, h := EE(a, b), FF(d, a, b), GG(d, a, b), HH(a, b);
      && Cong(p, s.x, 4 * (e * f))
      && Cong(p, s.y, 4 * (g * h))
      && Cong(p, s.z, 4 * (f * g))
      && Cong(p, s.t, 4 * (e * h))
  {
    hide EE, FF, GG, HH;
    Factors(p, d, a, b);
    var a1 := ((a.y - a.x) * (b.y - b.x)) % p;
    var a2 := ((a.y + a.x) * (b.y + b.x)) % p;
    var c := (2 * a.t * b.t * d) % p;
    var dd := (2 * a.z * b.z) % p;
    ProductOfFactors(p, a2 - a1, dd - c, EE(a, b), FF(d, a, b));
    ProductOfFactors(p, dd + c, a2 + a1, GG(d, a, b), HH(a, b));
    ProductOfFactors(p, dd - c, dd + c, FF(d, a, b), GG(d, a, b));
    ProductOfFactors(p, a2 - a1, a2 + a1, EE(a, b), HH(a, b));
  }

  // ------------------------------------------------------------ polynomial identities

  /** H^2 - E^2 = (Y1^2 - X1^2)(Y2^2 - X2^2). */
  lemma DifferenceOfSquares(x1: int, y1: int, x2: int, y2: int)
    ensures
      var e, h := x1 * y2 + y1 * x2, y1 * y2 + x1 * x2;
      h * h - e * e == (y1 * y1 - x1 * x1) * (y2 * y2 - x2 * x2)
  {
    var e, h := x1 * y2 + y1 * x2, y1 * y2 + x1 * x2;
    assert h - e == (y1 - x1) * (y2 - x2);
    assert h + e == (y1 + x1) * (y2 + x2);
    Conjugates(h, e);
    Conjugates(y1, x1);
    Conjugates(y2, x2);
    Regroup(y1 - x1, y2 - x2, y1 + x1, y2 + x2);
  }

  lemma Conjugates(a: int, b: int)
    ensures a * a - b * b == (a - b) * (a + b)
  {
  }

  lemma Regroup(a: int, b: int, c: int, d: int)
    ensures (a * b) * (c * d) == (a * c) * (b * d)
  {
    calc {
      (a * b) * (c * d);
    ==
      a * (b * (c * d));
    ==
      a * (c * (b * d));
    ==
      (a * c) * (b * d);
    }
  }

  /** H^2 + E^2 = (X1^2 + Y1^2)(X2^2 + Y2^2) + 4 X1Y1 X2Y2. */
  lemma SumOfSquares(x1: int, y1: int, x2: int, y2: int)
    ensures
      var e, h := x1 * y2 + y1 * x2, y1 * y2 + x1 * x2;
      h * h + e * e == (x1 * x1 + y1 * y1) * (x2 * x2 + y2 * y2) + 4 * ((x1 * y1) * (x2 * y2))
  {
    var e, h := x1 * y2 + y1 * x2, y1 * y2 + x1 * x2;
    var m, n, q, r := x1 * y2, y1 * x2, y1 * y2, x1 * x2;
    assert e * e == m * m + 2 * (m * n) + n * n;
    assert h * h == q * q + 2 * (q * r) + r * r;
    Regroup(x1, y2, y1, x2);
    Regroup(y1, y2, x1, x2);
    assert m * n == (x1 * y1) * (x2 * y2) && q * r == (x1 * y1) * (x2 * y2);
    Regroup(x1, y2, x1, y2);
    Regroup(y1, x2, y1, x2);
    Regroup(y1, y2, y1, y2);
    Regroup(x1, x2, x1, x2);
    Expand(x1 * x1, y1 * y1, x2 * x2, y2 * y2);
  }

  lemma Expand(a: int, b: int, c: int, d: int)
    ensures (a + b) * (c + d) == a * c + a * d + b * c + b * d
  {
  }

  /** E H = X1Y1 (X2^2 + Y2^2) + X2Y2 (X1^2 + Y1^2). */
  lemma ProductEH(x1: int, y1: int, x2: int, y2: int)
    ensures
      var e, h := x1 * y2 + y1 * x2, y1 * y2 + x1 * x2;
      e * h == (x1 * y1) * (x2 * x2 + y2 * y2) + (x2 * y2) * (x1 * x1 + y1 * y1)
  {
    var m, n, q, r := x1 * y2, y1 * x2, y1 * y2, x1 * x2;
    Expand(m, n, q, r);
    Regroup(x1, y2, y1, y2);
    Regroup(x1, y2, x1, x2);
    Regroup(y1, x2, y1, y2);
    Regroup(y1, x2, x1, x2);
    assert m * q == (x1 * y1) * (y2 * y2);
    assert m * r == (x1 * x1) * (x2 * y2);
    assert n * q == (y1 * y1) * (x2 * y2);
    assert n * r == (x1 * y1) * (x2 * x2);
    var u, v := x1 * y1, x2 * y2;
    assert u * (x2 * x2 + y2 * y2) == u * (x2 * x2) + u * (y2 * y2);
    assert v * (x1 * x1 + y1 * y1) == (x1 * x1) * v + (y1 * y1) * v;
  }

  /** (X^2 + Y^2)^2 = (Y^2 - X^2)^2 + 4 (XY)^2. */
  lemma SquareOfSum(x: int, y: int)
    ensures
      var s, w, c := x * x + y * y, y * y - x * x, x * y;
      s * s == w * w + 4 * (c * c)
  {
    var m, n := x * x, y * y;
    assert (m + n) * (m + n) == (n - m) * (n - m) + 4 * (m * n);
    Regroup(x, x, y, y);
  }

  /** Half of the last identity. */
  lemma HalfResidue(z1: int, t1: int, z2: int, t2: int, d: int)
    ensures (z1 * t1) * ((z2 + d * t2) * (z2 + d * t2))
            == (z1 * z2) * (t1 * z2) + 2 * (d * ((z1 * z2) * (t1 * t2))) + (d * d) * ((t1 * t2) * (z1 * t2))
  {
    var c, y := z1 * t1, d * t2;
    assert (z2 + y) * (z2 + y) == z2 * z2 + 2 * (z2 * y) + y * y;
    Distribute(c, z2 * z2, z2 * y, y * y);
    Regroup(z1, t1, z2, z2);
    assert c * (z2 * y) == d * ((z1 * z2) * (t1 * t2)) by {
      assert z2 * y == d * (z2 * t2);
      Regroup(z1, t1, z2, t2);
      Commute(c, d, z2 * t2);
    }
    assert c * (y * y) == (d * d) * ((t1 * t2) * (z1 * t2)) by {
      Regroup(d, t2, d, t2);
      Regroup(z1, t1, t2, t2);
      Commute(c, d * d, t2 * t2);
    }
  }

  lemma Distribute(c: int, x: int, y: int, z: int)
    ensures c * (x + 2 * y + z) == c * x + 2 * (c * y) + c * z
  {
  }

  lemma Commute(a: int, b: int, c: int)
    ensures a * (b * c) == b * (a * c)
  {
  }

  /** S W1 W2 = S^2 - M^2 + d (c1^2 W2^2 + c2^2 W1^2), with every square written out. */
  lemma Residue(z1: int, t1: int, z2: int, t2: int, d: int)
    ensures
      var q, r := z1 * z2, t1 * t2;
      var s, w1, w2 := q + (d * d) * r, z1 + d * t1, z2 + d * t2;
      s * (w1 * w2) == s * s - 4 * ((d * d) * (q * r)) + d * ((z1 * t1) * (w2 * w2) + (z2 * t2) * (w1 * w1))
  {
    var q, r, m, n := z1 * z2, t1 * t2, z1 * t2, t1 * z2;
    var s, w1, w2 := q + (d * d) * r, z1 + d * t1, z2 + d * t2;
    ProductOfSums(z1, t1, z2, t2, d);
    HalfResidue(z1, t1, z2, t2, d);
    HalfResidue(z2, t2, z1, t1, d);
    assert z2 * z1 == q && t2 * t1 == r && t2 * z1 == m && z2 * t1 == n;
    Collect(q, r, m, n, d);
    var sum := (z1 * t1) * (w2 * w2) + (z2 * t2) * (w1 * w1);
    assert sum == s * (m + n) + 4 * (d * (q * r));
    Finish(s, d, m + n, q * r);
  }

  lemma ProductOfSums(z1: int, t1: int, z2: int, t2: int, d: int)
    ensures (z1 + d * t1) * (z2 + d * t2) == z1 * z2 + (d * d) * (t1 * t2) + d * (z1 * t2 + t1 * z2)
  {
    Expand(z1, d * t1, z2, d * t2);
    Regroup(d, t1, d, t2);
  }

  lemma Collect(q: int, r: int, m: int, n: int, d: int)
    ensures (q * n + 2 * (d * (q * r)) + (d * d) * (r * m)) + (q * m + 2 * (d * (q * r)) + (d * d) * (r * n))
            == (q + (d * d) * r) * (m + n) + 4 * (d * (q * r))
  {
    var k := d * d;
    assert k * (r * m) == (k * r) * m && k * (r * n) == (k * r) * n;
    Expand(q, k * r, m, n);
  }

  lemma Finish(s: int, d: int, k: int, x: int)
    ensures s * (s + d * k) == s * s - 4 * ((d * d) * x) + d * (s * k + 4 * (d * x))
  {
    assert s * (d * k) == d * (s * k);
    assert d * (d * x) == (d * d) * x;
  }

  // ------------------------------------------------------------ curve preservation

  lemma SplitSquares(s: int, m: int, hh: int, ee: int)
    ensures (s + m) * hh - (s - m) * ee == s * (hh - ee) + m * (hh + ee)
    ensures (s - m) * (s + m) == s * s - m * m
  {
  }

  lemma SquareOfMix(c1: int, c2: int, a1: int, a2: int)
    ensures
      var q := c1 * a2 + c2 * a1;
      q * q == (c1 * c1) * (a2 * a2) + (c2 * c2) * (a1 * a1) + 2 * ((c1 * c2) * (a1 * a2))
  {
    var x, y := c1 * a2, c2 * a1;
    assert (x + y) * (x + y) == x * x + y * y + 2 * (x * y);
    Regroup(c1, a2, c1, a2);
    Regroup(c2, a1, c2, a1);
    Regroup(c1, a2, c2, a1);
  }

  /** (EH)^2 in terms that no longer mention X and Y, the common product A1 A2 aside. */
  lemma ReduceEH(p: int, c1: int, c2: int, w1: int, w2: int, a1: int, a2: int, eh: int)
    requires p > 0
    requires Cong(p, eh, c1 * a2 + c2 * a1)
    requires Cong(p, a1 * a1, w1 * w1 + 4 * (c1 * c1)) && Cong(p, a2 * a2, w2 * w2 + 4 * (c2 * c2))
    ensures Cong(p, eh * eh,
                 (c1 * c1) * (w2 * w2 + 4 * (c2 * c2)) + (c2 * c2) * (w1 * w1 + 4 * (c1 * c1))
                 + 2 * ((c1 * c2) * (a1 * a2)))
  {
    hide Cong;
    var q := c1 * a2 + c2 * a1;
    Square(p, eh, q);
    SquareOfMix(c1, c2, a1, a2);
    var u, v, w := (c1 * c1) * (a2 * a2), (c2 * c2) * (a1 * a1), 2 * ((c1 * c2) * (a1 * a2));
    var u', v' := (c1 * c1) * (w2 * w2 + 4 * (c2 * c2)), (c2 * c2) * (w1 * w1 + 4 * (c1 * c1));
    Scale(p, c1 * c1, a2 * a2, w2 * w2 + 4 * (c2 * c2));
    Scale(p, c2 * c2, a1 * a1, w1 * w1 + 4 * (c1 * c1));
    Plus(p, u, u', v, v');
    Same(p, w);
    Plus(p, u + v, u' + v', w, w);
    Trans(p, eh * eh, q * q, u' + v' + w);
  }

  /** The terms that mention A1 A2 cancel, and the residue is left. */
  lemma Cancel(d: int, s: int, m: int, c1: int, c2: int, w1: int, w2: int, a: int)
    requires m == 2 * (d * (c1 * c2))
    requires s * (w1 * w2) == s * s - m * m + d * ((c1 * c1) * (w2 * w2) + (c2 * c2) * (w1 * w1))
    ensures s * (w1 * w2) + m * (a + 4 * (c1 * c2))
            == s * s - m * m
             + d * ((c1 * c1) * (w2 * w2 + 4 * (c2 * c2)) + (c2 * c2) * (w1 * w1 + 4 * (c1 * c1)) + 2 * ((c1 * c2) * a))
  {
    var k, x, y := c1 * c2, c1 * c1, c2 * c2;
    Regroup(c1, c2, c1, c2);
    assert k * k == x * y;
    CancelLeft(d, k, a);
    CancelRight(d, x, y, w1 * w1, w2 * w2, k * a);
  }

  lemma CancelLeft(d: int, k: int, a: int)
    ensures (2 * (d * k)) * (a + 4 * k) == 2 * (d * (k * a)) + 8 * (d * (k * k))
  {
    assert (d * k) * a == d * (k * a) && (d * k) * k == d * (k * k);
  }

  lemma CancelRight(d: int, x: int, y: int, u: int, v: int, b: int)
    ensures d * (x * (v + 4 * y) + y * (u + 4 * x) + 2 * b)
            == d * (x * v + y * u) + 8 * (d * (x * y)) + 2 * (d * b)
  {
    assert x * (v + 4 * y) == x * v + 4 * (x * y);
    assert y * (u + 4 * x) == y * u + 4 * (x * y);
  }

  lemma Assemble(p: int, d: int, s: int, m: int, c1: int, c2: int, w1: int, w2: int, a1: int, a2: int,
                 hh: int, ee: int, eh: int)
    requires p > 0
    requires Cong(p, hh - ee, w1 * w2) && Cong(p, hh + ee, a1 * a2 + 4 * (c1 * c2))
    requires Cong(p, eh, c1 * a2 + c2 * a1)
    requires Cong(p, a1 * a1, w1 * w1 + 4 * (c1 * c1)) && Cong(p, a2 * a2, w2 * w2 + 4 * (c2 * c2))
    requires m == 2 * (d * (c1 * c2))
    requires s * (w1 * w2) == s * s - m * m + d * ((c1 * c1) * (w2 * w2) + (c2 * c2) * (w1 * w1))
    ensures Cong(p, (s + m) * hh - (s - m) * ee, (s - m) * (s + m) + d * (eh * eh))
  {
    hide Cong;
    SplitSquares(s, m, hh, ee);
    Scale(p, s, hh - ee, w1 * w2);
    Scale(p, m, hh + ee, a1 * a2 + 4 * (c1 * c2));
    Plus(p, s * (hh - ee), s * (w1 * w2), m * (hh + ee), m * (a1 * a2 + 4 * (c1 * c2)));
    Cancel(d, s, m, c1, c2, w1, w2, a1 * a2);
    ReduceEH(p, c1, c2, w1, w2, a1, a2, eh);
    var r := (c1 * c1) * (w2 * w2 + 4 * (c2 * c2)) + (c2 * c2) * (w1 * w1 + 4 * (c1 * c1))
             + 2 * ((c1 * c2) * (a1 * a2));
    Scale(p, d, eh * eh, r);
    Same(p, s * s - m * m);
    Plus(p, s * s - m * m, s * s - m * m, d * (eh * eh), d * r);
    Sym(p, s * s - m * m + d * (eh * eh), s * s - m * m + d * r);
    Trans(p, s * (hh - ee) + m * (hh + ee), s * s - m * m + d * r, s * s - m * m + d * (eh * eh));
  }

  /** The sum of squares of X and Y of a point on the curve. */
  lemma SquaredNorm(p: int, d: int, a: Point)
    requires p > 0 && OnCurve(p, d, a)
    ensures
      var n, w, c := a.x * a.x + a.y * a.y, a.z * a.z + d * (a.t * a.t), a.z * a.t;
      Cong(p, n * n, w * w + 4 * (c * c))
  {
    var n, w, c := a.x * a.x + a.y * a.y, a.z * a.z + d * (a.t * a.t), a.z * a.t;
    var v, u := a.y * a.y - a.x * a.x, a.x * a.y;
    SquareOfSum(a.x, a.y);
    Square(p, v, w);
    Square(p, u, c);
    Scale(p, 4, u * u, c * c);
    Plus(p, v * v, w * w, 4 * (u * u), 4 * (c * c));
  }

  lemma SquareOfPair(u: int, v: int)
    ensures (u + v) * (u + v) == (u * u + v * v) + 2 * (u * v)
    ensures (u - v) * (u - v) == (u * u + v * v) - 2 * (u * v)
  {
  }

  /** G^2 and F^2 as S + M and S - M, and the residue identity at the squares of Z and T. */
  lemma SquaredFactors(d: int, z1: int, t1: int, z2: int, t2: int, s: int, m: int)
    requires s == (z1 * z2) * (z1 * z2) + (d * (t1 * t2)) * (d * (t1 * t2))
    requires m == 2 * ((z1 * z2) * (d * (t1 * t2)))
    ensures
      var c1, c2, w1, w2 := z1 * t1, z2 * t2, z1 * z1 + d * (t1 * t1), z2 * z2 + d * (t2 * t2);
      && m == 2 * (d * (c1 * c2))
      && s * (w1 * w2) == s * s - m * m + d * ((c1 * c1) * (w2 * w2) + (c2 * c2) * (w1 * w1))
  {
    var u, k := z1 * z2, t1 * t2;
    var v := d * k;
    Commute(u, d, k);
    Regroup(z1, z2, t1, t2);
    Regroup(z1, z2, z1, z2);
    Regroup(t1, t2, t1, t2);
    Regroup(d, k, d, k);
    Regroup(z1, t1, z1, t1);
    Regroup(z2, t2, z2, t2);
    var q, r := (z1 * z1) * (z2 * z2), (t1 * t1) * (t2 * t2);
    assert s == q + (d * d) * r;
    assert m * m == 4 * ((d * d) * (q * r)) by {
      MixedSquare(u, v);
      Regroup(d, d, q, r);
      Commute(u * u, d * d, r);
    }
    Residue(z1 * z1, t1 * t1, z2 * z2, t2 * t2, d);
  }

  lemma MixedSquare(u: int, v: int)
    ensures (2 * (u * v)) * (2 * (u * v)) == 4 * ((u * u) * (v * v))
  {
    Regroup(u, v, u, v);
  }

  /** The curve equation holds of (EF, GH, FG, EH). */
  lemma CurveEquation(p: int, d: int, a: Point, b: Point)
    requires p > 0 && OnCurve(p, d, a) && OnCurve(p, d, b)
    ensures
      var e, f, g, h := EE(a, b), FF(d, a, b), GG(d, a, b), HH(a, b);
      Cong(p, (g * g) * (h * h) - (f * f) * (e * e), (f * f) * (g * g) + d * ((e * h) * (e * h)))
  {
    hide Cong;
    var u, v := a.z * b.z, d * (a.t * b.t);
    var s, m := u * u + v * v, 2 * (u * v);
    SquareOfPair(u, v);
    SquaredFactors(d, a.z, a.t, b.z, b.t, s, m);
    var c1, c2 := a.z * a.t, b.z * b.t;
    var w1, w2 := a.z * a.z + d * (a.t * a.t), b.z * b.z + d * (b.t * b.t);
    var a1, a2 := a.x * a.x + a.y * a.y, b.x * b.x + b.y * b.y;
    SquaredNorm(p, d, a);
    SquaredNorm(p, d, b);
    var e, h := EE(a, b), HH(a, b);
    Numerators(p, d, a, b, c1, c2, w1, w2, a1, a2);
    Assemble(p, d, s, m, c1, c2, w1, w2, a1, a2, h * h, e * e, e * h);
  }

  /** H^2 - E^2, H^2 + E^2 and E H, with the products X Y and Y^2 - X^2 replaced by what the
      two points' equations say of them. */
  lemma Numerators(p: int, d: int, a: Point, b: Point, c1: int, c2: int, w1: int, w2: int, a1: int, a2: int)
    requires p > 0 && OnCurve(p, d, a) && OnCurve(p, d, b)
    requires c1 == a.z * a.t && c2 == b.z * b.t
    requires w1 == a.z * a.z + d * (a.t * a.t) && w2 == b.z * b.z + d * (b.t * b.t)
    requires a1 == a.x * a.x + a.y * a.y && a2 == b.x * b.x + b.y * b.y
    ensures
      var e, h := EE(a, b), HH(a, b);
      && Cong(p, h * h - e * e, w1 * w2)
      && Cong(p, h * h + e * e, a1 * a2 + 4 * (c1 * c2))
      && Cong(p, e * h, c1 * a2 + c2 * a1)
  {
    hide Cong;
    var e, h := EE(a, b), HH(a, b);
    DifferenceOfSquares(a.x, a.y, b.x, b.y);
    Times(p, a.y * a.y - a.x * a.x, w1, b.y * b.y - b.x * b.x, w2);
    SumOfSquares(a.x, a.y, b.x, b.y);
    var u, v := a.x * a.y, b.x * b.y;
    Times(p, u, c1, v, c2);
    Scale(p, 4, u * v, c1 * c2);
    Same(p, a1 * a2);
    Plus(p, a1 * a2, a1 * a2, 4 * (u * v), 4 * (c1 * c2));
    ProductEH(a.x, a.y, b.x, b.y);
    Same(p, a1);
    Same(p, a2);
    Times(p, u, c1, a2, a2);
    Times(p, v, c2, a1, a1);
    Plus(p, u * a2, c1 * a2, v * a1, c2 * a1);
  }

  /** A congruence between numbers congruent to 4 times something, squared. */
  lemma SquareOfFour(p: int, x: int, r: int, s: int)
    requires p > 0 && Cong(p, x, 4 * (r * s))
    ensures Cong(p, x * x, 16 * ((r * r) * (s * s)))
  {
    hide Cong;
    Square(p, x, 4 * (r * s));
    Regroup(r, s, r, s);
    assert (4 * (r * s)) * (4 * (r * s)) == 16 * ((r * s) * (r * s));
  }

  lemma FirstEquation(p: int, d: int, s: Point, e: int, f: int, g: int, h: int)
    requires p > 0
    requires Cong(p, s.x, 4 * (e * f)) && Cong(p, s.y, 4 * (g * h))
    requires Cong(p, s.z, 4 * (f * g)) && Cong(p, s.t, 4 * (e * h))
    requires Cong(p, (g * g) * (h * h) - (f * f) * (e * e), (f * f) * (g * g) + d * ((e * h) * (e * h)))
    ensures Cong(p, s.y * s.y - s.x * s.x, s.z * s.z + d * (s.t * s.t))
  {
    hide Cong;
    SquareOfFour(p, s.x, e, f);
    SquareOfFour(p, s.y, g, h);
    SquareOfFour(p, s.z, f, g);
    SquareOfFour(p, s.t, e, h);
    var xx, yy, zz, tt := (e * e) * (f * f), (g * g) * (h * h), (f * f) * (g * g), (e * e) * (h * h);
    Regroup(e, h, e, h);
    assert (f * f) * (e * e) == xx;
    Plus(p, s.y * s.y, 16 * yy, s.x * s.x, 16 * xx);
    Scale(p, d, s.t * s.t, 16 * tt);
    Plus(p, s.z * s.z, 16 * zz, d * (s.t * s.t), d * (16 * tt));
    Scale(p, 16, yy - xx, zz + d * tt);
    assert 16 * (yy - xx) == 16 * yy - 16 * xx;
    assert 16 * (zz + d * tt) == 16 * zz + d * (16 * tt);
    Trans(p, s.y * s.y - s.x * s.x, 16 * (yy - xx), 16 * (zz + d * tt));
    Sym(p, s.z * s.z + d * (s.t * s.t), 16 * (zz + d * tt));
    Trans(p, s.y * s.y - s.x * s.x, 16 * (zz + d * tt), s.z * s.z + d * (s.t * s.t));
  }

  lemma SecondEquation(p: int, s: Point, e: int, f: int, g: int, h: int)
    requires p > 0
    requires Cong(p, s.x, 4 * (e * f)) && Cong(p, s.y, 4 * (g * h))
    requires Cong(p, s.z, 4 * (f * g)) && Cong(p, s.t, 4 * (e * h))
    ensures Cong(p, s.x * s.y, s.z * s.t)
  {
    hide Cong;
    Times(p, s.x, 4 * (e * f), s.y, 4 * (g * h));
    Times(p, s.z, 4 * (f * g), s.t, 4 * (e * h));
    assert (4 * (e * f)) * (4 * (g * h)) == (4 * (f * g)) * (4 * (e * h)) by {
      Regroup(4, e * f, 4, g * h);
      Regroup(4, f * g, 4, e * h);
      Regroup(e, f, h, g);
    }
    Sym(p, s.z * s.t, (4 * (f * g)) * (4 * (e * h)));
    Trans(p, s.x * s.y, (4 * (e * f)) * (4 * (g * h)), s.z * s.t);
  }

  /** The sum of two points of the curve is on the curve, for every modulus and every d. */
  lemma AddKeepsCurve(p: int, d: int, a: Point, b: Point)
    requires p > 0 && OnCurve(p, d, a) && OnCurve(p, d, b)
    ensures OnCurve(p, d, PointAdd(p, d, a, b))
  {
    hide Cong, EE, FF, GG, HH, PointAdd;
    SumOfPoints(p, d, a, b);
    CurveEquation(p, d, a, b);
    var s := PointAdd(p, d, a, b);
    var e, f, g, h := EE(a, b), FF(d, a, b), GG(d, a, b), HH(a, b);
    FirstEquation(p, d, s, e, f, g, h);
    SecondEquation(p, s, e, f, g, h);
  }

  // ------------------------------------------------------------ the addition law

  /** Z1 Z2 times G and F, with T eliminated. */
  lemma Denominators(p: int, d: int, a: Point, b: Point)
    requires p > 0 && OnCurve(p, d, a) && OnCurve(p, d, b)
    ensures
      var z, k := a.z * b.z, d * ((a.x * a.y) * (b.x * b.y));
      && Cong(p, z * GG(d, a, b), z * z + k)
      && Cong(p, z * FF(d, a, b), z * z - k)
  {
    hide Cong;
    var z, t := a.z * b.z, a.t * b.t;
    var k, k' := d * ((a.x * a.y) * (b.x * b.y)), d * (z * t);
    Regroup(a.z, a.t, b.z, b.t);
    Times(p, a.x * a.y, a.z * a.t, b.x * b.y, b.z * b.t);
    Scale(p, d, (a.x * a.y) * (b.x * b.y), z * t);
    Sym(p, k, k');
    Same(p, z * z);
    Plus(p, z * z, z * z, k', k);
    Commute(z, d, t);
    assert z * GG(d, a, b) == z * z + k' && z * FF(d, a, b) == z * z - k';
  }

  /** A quotient of coordinates, from the product form: n = 4 e f and m = 4 f g. */
  lemma CrossMultiply(p: int, n: int, m: int, e: int, f: int, g: int, z: int, den: int)
    requires p > 0 && Cong(p, n, 4 * (e * f)) && Cong(p, m, 4 * (f * g)) && Cong(p, z * g, den)
    ensures Cong(p, n * den, m * (z * e))
  {
    hide Cong;
    Sym(p, z * g, den);
    Times(p, n, 4 * (e * f), den, z * g);
    Same(p, z * e);
    Times(p, m, 4 * (f * g), z * e, z * e);
    Regroup(e, f, z, g);
    Regroup(f, g, z, e);
    assert (e * f) * (z * g) == (f * g) * (z * e) by {
      assert (e * z) * (f * g) == (f * g) * (z * e);
    }
    assert (4 * (e * f)) * (z * g) == 4 * ((e * f) * (z * g));
    assert (4 * (f * g)) * (z * e) == 4 * ((f * g) * (z * e));
    Sym(p, m * (z * e), (4 * (f * g)) * (z * e));
    Trans(p, n * den, (4 * (e * f)) * (z * g), m * (z * e));
  }

  /** The sum is the twisted Edwards sum of x = X/Z and y = Y/Z, cleared of denominators:
      x3 = (x1 y2 + y1 x2) / (1 + d x1 x2 y1 y2) and y3 = (y1 y2 + x1 x2) / (1 - d x1 x2 y1 y2). */
  lemma AddIsEdwardsSum(p: int, d: int, a: Point, b: Point)
    requires p > 0 && OnCurve(p, d, a) && OnCurve(p, d, b)
    ensures
      var s := PointAdd(p, d, a, b);
      var z, k := a.z * b.z, d * ((a.x * a.y) * (b.x * b.y));
      && Cong(p, s.x * (z * z + k), s.z * (z * (a.x * b.y + a.y * b.x)))
      && Cong(p, s.y * (z * z - k), s.z * (z * (a.y * b.y + a.x * b.x)))
  {
    hide Cong, PointAdd, GG, FF;
    SumOfPoints(p, d, a, b);
    Denominators(p, d, a, b);
    var s := PointAdd(p, d, a, b);
    var z, k := a.z * b.z, d * ((a.x * a.y) * (b.x * b.y));
    var e, f, g, h := EE(a, b), FF(d, a, b), GG(d, a, b), HH(a, b);
    CrossMultiply(p, s.x, s.z, e, f, g, z, z * z + k);
    assert g * h == h * g && f * g == g * f;
    CrossMultiply(p, s.y, s.z, h, g, f, z, z * z - k);
  }

  /** Adding IDENTITY multiplies all four coordinates by 4Z: the same point. */
  lemma AddIdentity(p: int, d: int, a: Point)
    requires p > 0 && OnCurve(p, d, a)
    ensures
      var s := PointAdd(p, d, a, IDENTITY);
      var c := 4 * a.z;
      && Cong(p, s.x, c * a.x) && Cong(p, s.y, c * a.y)
      && Cong(p, s.z, c * a.z) && Cong(p, s.t, c * a.t)
  {
    hide Cong, PointAdd;
    SumOfPoints(p, d, a, IDENTITY);
    Unit(a.x, a.y, a.z, a.t, d);
    var s := PointAdd(p, d, a, IDENTITY);
    assert 4 * (a.z * a.t) == 4 * a.z * a.t by {
      Regroup(4, a.z, a.t, 1);
    }
    OnCurveProduct(p, d, a);
    Scale(p, 4, a.x * a.y, a.z * a.t);
    Trans(p, s.t, 4 * (a.x * a.y), 4 * (a.z * a.t));
    assert 4 * (a.x * a.z) == 4 * a.z * a.x;
    assert 4 * (a.z * a.y) == 4 * a.z * a.y;
    assert 4 * (a.z * a.z) == 4 * a.z * a.z;
  }

  lemma Unit(x: int, y: int, z: int, t: int, d: int)
    ensures
      var a := Point(x, y, z, t);
      EE(a, IDENTITY) == x && HH(a, IDENTITY) == y && FF(d, a, IDENTITY) == z && GG(d, a, IDENTITY) == z
  {
    assert d * (t * 0) == 0;
  }

  lemma OnCurveProduct(p: int, d: int, a: Point)
    requires p > 0 && OnCurve(p, d, a)
    ensures Cong(p, a.x * a.y, a.z * a.t)
  {
  }

  // ------------------------------------------------------------ scalar multiplication

  function Adder(p: int, d: int): (Point, Point) -> Point
    requires p > 0
  {
    (a: Point, b: Point) => PointAdd(p, d, a, b)
  }

  /** _point_mul, with a scalar of any size and sign; it stays on the curve throughout. */
  method PointMul(p: int, d: int, scalar: int, point: Point) returns (acc: Point)
    requires p > 0
    ensures acc == Climb(Adder(p, d), IDENTITY, if scalar > 0 then scalar else 0, point)
    ensures OnCurve(p, d, point) ==> OnCurve(p, d, acc)
  {
    hide PointAdd, OnCurve;
    var k, q := scalar, point;
    acc := IDENTITY;
    IdentityOnCurve(p, d);
    while k > 0
      invariant k > 0 ==> Climb(Adder(p, d), acc, k, q) == Climb(Adder(p, d), IDENTITY, scalar, point)
      invariant k <= 0 ==> acc == Climb(Adder(p, d), IDENTITY, if scalar > 0 then scalar else 0, point)
      invariant OnCurve(p, d, point) ==> OnCurve(p, d, acc) && OnCurve(p, d, q)
      decreases k
    {
      if OnCurve(p, d, point) {
        AddKeepsCurve(p, d, acc, q);
        AddKeepsCurve(p, d, q, q);
      }
      if k % 2 == 1 {
        acc := PointAdd(p, d, acc, q);
      }
      q := PointAdd(p, d, q, q);
      k := k / 2;
    }
  }
}
