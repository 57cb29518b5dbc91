/** Why the addition formula of ci/verify_vectors.py needs no special cases: over a prime modulus
    congruent to 5 modulo 8 in which d is no square, Z of a sum is never 0. */
module Completeness {
  import opened Congruence
  import opened Fermat
  import opened Ladder
  import opened Edwards

  predicate IsRoot(p: int, w: int, x: int)
    requires p > 0
  {
    Cong(p, w * w, x)
  }

  /** What section 5.1 of RFC 8032 says of p and d. */
  ghost predicate Ed25519Field(p: int, d: int) {
    && Prime(p) && p % 8 == 5
    && forall w :: !IsRoot(p, w, d)
  }

  /** The hypotheses can be met: 2 is no square modulo 5. */
  lemma FieldOfFive()
    ensures Ed25519Field(5, 2)
  {
    forall w: int
      ensures !IsRoot(5, w, 2)
    {
      var r := w % 5;
      NoSmallRoot(r);
      Reduce(5, w);
      Square(5, r, w);
      if IsRoot(5, w, 2) {
        Trans(5, r * r, w * w, 2);
      }
    }
  }

  lemma NoSmallRoot(r: int)
    requires 0 <= r < 5
    ensures !IsRoot(5, r, 2)
  {
    if r <= 2 {
    } else if r == 3 {
    } else {
      assert r == 4;
    }
  }

  /** A point that stands for a pair (X/Z, Y/Z) of the curve. */
  predicate Proper(p: int, d: int, a: Point)
    requires p > 0
  {
    OnCurve(p, d, a) && !Cong(p, a.z, 0)
  }

  /** A multiple of a multiple of p is one. */
  lemma ZeroFactor(p: int, x: int, y: int)
    requires p > 0 && Cong(p, x, 0)
    ensures Cong(p, x * y, 0)
  {
    Same(p, y);
    Times(p, x, 0, y, y);
  }

  lemma NonzeroProduct(p: int, x: int, y: int)
    requires Prime(p) && !Cong(p, x, 0) && !Cong(p, y, 0)
    ensures !Cong(p, x * y, 0)
  {
    if Cong(p, x * y, 0) {
      Euclid(p, x, y);
    }
  }

  /** The inverse that raising to p - 2 computes. */
  lemma Inverse(p: int, v: int)
    requires Prime(p) && !Cong(p, v, 0)
    ensures Cong(p, v * (Power(v, p - 2) % p), 1)
  {
    LittleTheorem(p, v);
    var w := Power(v, p - 2);
    assert Power(v, p - 1) == v * w;
    Reduce(p, w);
    Scale(p, v, w % p, w);
    Trans(p, v * (w % p), v * w, 1);
  }

  /** d times a nonzero square is no square. */
  lemma NotSquareTimes(p: int, d: int, m: int, n: int)
    requires Ed25519Field(p, d) && !Cong(p, m, 0)
    ensures !Cong(p, n * n, d * (m * m))
  {
    if Cong(p, n * n, d * (m * m)) {
      Inverse(p, m);
      var i := Power(m, p - 2) % p;
      Times(p, n * n, d * (m * m), i * i, i * i) by { Same(p, i * i); }
      Regroup(n, i, n, i);
      Regroup(m, i, m, i);
      Square(p, m * i, 1);
      Scale(p, d, (m * i) * (m * i), 1);
      assert (d * (m * m)) * (i * i) == d * ((m * m) * (i * i));
      Trans(p, (n * i) * (n * i), d * ((m * i) * (m * i)), d);
      assert IsRoot(p, n * i, d);
    }
  }

  lemma TurnedExpansion(i: int, e: int, x: int, y: int)
    requires e * e == 1
    ensures (i * x + e * y) * (i * x + e * y) == (i * i) * (x * x) + y * y + 2 * ((e * i) * (x * y))
  {
    var u, v := i * x, e * y;
    assert (u + v) * (u + v) == u * u + v * v + 2 * (u * v);
    Regroup(i, x, i, x);
    Regroup(e, y, e, y);
    Regroup(i, x, e, y);
  }

  /** With i^2 = -1, the square of i X + e Y no longer needs X and Y. */
  lemma TurnedSquare(p: int, d: int, i: int, e: int, a: Point)
    requires p > 0 && OnCurve(p, d, a) && IsRoot(p, i, -1) && e * e == 1
    ensures
      var s := i * a.x + e * a.y;
      Cong(p, s * s, a.z * a.z + d * (a.t * a.t) + 2 * ((e * i) * (a.z * a.t)))
  {
    hide Cong;
    TurnedExpansion(i, e, a.x, a.y);
    var xx, yy, xy := a.x * a.x, a.y * a.y, a.x * a.y;
    Same(p, xx);
    Times(p, i * i, -1, xx, xx);
    Same(p, yy);
    Plus(p, (i * i) * xx, -xx, yy, yy);
    Trans(p, (i * i) * xx + yy, yy - xx, a.z * a.z + d * (a.t * a.t));
    Scale(p, 2 * (e * i), xy, a.z * a.t);
    assert 2 * (e * i) * xy == 2 * ((e * i) * xy);
    assert 2 * (e * i) * (a.z * a.t) == 2 * ((e * i) * (a.z * a.t));
    Plus(p, (i * i) * xx + yy, a.z * a.z + d * (a.t * a.t), 2 * ((e * i) * xy), 2 * ((e * i) * (a.z * a.t)));
  }

  lemma LeftSide(z1: int, t1: int, z2: int, d: int, f: int)
    ensures (z2 * z2) * (z1 * z1 + d * (t1 * t1) + 2 * (f * (z1 * t1)))
            == (z1 * z2) * (z1 * z2) + d * ((t1 * t1) * (z2 * z2)) + 2 * ((f * (t1 * z2)) * (z1 * z2))
  {
    var q := z2 * z2;
    assert q * (z1 * z1) == (z1 * z2) * (z1 * z2);
    assert q * (d * (t1 * t1)) == d * ((t1 * t1) * q);
    assert q * (f * (z1 * t1)) == (f * (t1 * z2)) * (z1 * z2) by {
      Commute(q, f, z1 * t1);
      Regroup(t1, z2, z1, z2);
      assert q * (z1 * t1) == (t1 * z1) * (z2 * z2);
    }
  }

  lemma RightSide(t1: int, z2: int, t2: int, d: int, e: int, i: int)
    requires e * e == 1
    ensures
      var v := e * (d * (t1 * t2));
      d * ((t1 * t1) * (z2 * z2 + d * (t2 * t2) + 2 * (i * (z2 * t2))))
      == v * v + d * ((t1 * t1) * (z2 * z2)) + 2 * (((e * i) * (t1 * z2)) * v)
  {
    var v := e * (d * (t1 * t2));
    SquareOfV(t1, t2, d, e);
    LastTerm(e, i, t1, z2, d, t2);
    ThreeTerms(d, t1 * t1, z2 * z2, t2 * t2, i * (z2 * t2));
  }

  lemma SquareOfV(t1: int, t2: int, d: int, e: int)
    requires e * e == 1
    ensures (e * (d * (t1 * t2))) * (e * (d * (t1 * t2))) == (d * d) * ((t1 * t1) * (t2 * t2))
  {
    var k := t1 * t2;
    Regroup(e, d * k, e, d * k);
    Regroup(d, k, d, k);
    Regroup(t1, t2, t1, t2);
  }

  lemma ThreeTerms(d: int, tt: int, a: int, b: int, c: int)
    ensures d * (tt * (a + d * b + 2 * c)) == (d * d) * (tt * b) + d * (tt * a) + 2 * (d * (tt * c))
  {
    assert tt * (a + d * b + 2 * c) == tt * a + d * (tt * b) + 2 * (tt * c);
    assert d * (d * (tt * b)) == (d * d) * (tt * b);
  }

  lemma LastTerm(e: int, i: int, t1: int, z2: int, d: int, t2: int)
    requires e * e == 1
    ensures ((e * i) * (t1 * z2)) * (e * (d * (t1 * t2))) == d * ((t1 * t1) * (i * (z2 * t2)))
  {
    var w := d * (t1 * t2);
    Regroup(e * i, t1 * z2, e, w);
    assert (e * i) * e == i;
    assert (t1 * z2) * w == d * ((t1 * z2) * (t1 * t2));
    Regroup(t1, z2, t1, t2);
    Commute(i, d, (t1 * t1) * (z2 * t2));
    Commute(i, t1 * t1, z2 * t2);
  }

  /** If Z1 Z2 were e d T1 T2 with e = 1 or -1, then d times a square would be a square. */
  lemma Collision(p: int, d: int, i: int, e: int, a: Point, b: Point)
    requires p > 0 && OnCurve(p, d, a) && OnCurve(p, d, b) && IsRoot(p, i, -1) && e * e == 1
    requires Cong(p, a.z * b.z, e * (d * (a.t * b.t)))
    ensures
      var n, m := b.z * (i * a.x + e * a.y), a.t * (i * b.x + b.y);
      Cong(p, n * n, d * (m * m))
  {
    hide Cong, OnCurve, IsRoot;
    var s, r := i * a.x + e * a.y, i * b.x + b.y;
    var n, m := b.z * s, a.t * r;
    var u, v := a.z * b.z, e * (d * (a.t * b.t));
    var left, right := a.z * a.z + d * (a.t * a.t) + 2 * ((e * i) * (a.z * a.t)),
                       b.z * b.z + d * (b.t * b.t) + 2 * (i * (b.z * b.t));
    TurnedSquare(p, d, i, e, a);
    TurnedSquare(p, d, i, 1, b);
    Regroup(b.z, s, b.z, s);
    Regroup(a.t, r, a.t, r);
    Scale(p, b.z * b.z, s * s, left);
    Scale(p, a.t * a.t, r * r, right);
    Scale(p, d, m * m, (a.t * a.t) * right);
    LeftSide(a.z, a.t, b.z, d, e * i);
    RightSide(a.t, b.z, b.t, d, e, i);
    var c, f := d * ((a.t * a.t) * (b.z * b.z)), (e * i) * (a.t * b.z);
    SwapProduct(p, u, v, c, f);
    Trans(p, n * n, u * u + c + 2 * (f * u), v * v + c + 2 * (f * v));
    Sym(p, d * (m * m), v * v + c + 2 * (f * v));
    Trans(p, n * n, v * v + c + 2 * (f * v), d * (m * m));
  }

  lemma SwapProduct(p: int, u: int, v: int, c: int, f: int)
    requires p > 0 && Cong(p, u, v)
    ensures Cong(p, u * u + c + 2 * (f * u), v * v + c + 2 * (f * v))
  {
    hide Cong;
    Square(p, u, v);
    Same(p, c);
    Plus(p, u * u, v * v, c, c);
    Scale(p, f, u, v);
    Scale(p, 2, f * u, f * v);
    Plus(p, u * u + c, v * v + c, 2 * (f * u), 2 * (f * v));
  }

  lemma OppositeRoot(p: int, i: int)
    requires p > 0 && IsRoot(p, i, -1)
    ensures IsRoot(p, -i, -1)
  {
    assert (-i) * (-i) == i * i;
  }

  /** At a collision, T1 or a i X2 + Y2 vanishes. */
  lemma OneVanishes(p: int, d: int, i: int, e: int, a: Point, b: Point)
    requires Ed25519Field(p, d) && OnCurve(p, d, a) && OnCurve(p, d, b)
    requires IsRoot(p, i, -1) && e * e == 1 && Cong(p, a.z * b.z, e * (d * (a.t * b.t)))
    ensures Cong(p, a.t, 0) || Cong(p, i * b.x + b.y, 0)
  {
    Collision(p, d, i, e, a, b);
    var n, m := b.z * (i * a.x + e * a.y), a.t * (i * b.x + b.y);
    if Cong(p, m, 0) {
      Euclid(p, a.t, i * b.x + b.y);
    } else {
      NotSquareTimes(p, d, m, n);
    }
  }

  lemma BothVanish(p: int, u: int, y: int)
    requires Prime(p) && p > 2 && Cong(p, u + y, 0) && Cong(p, -u + y, 0)
    ensures Cong(p, y, 0)
  {
    Plus(p, u + y, 0, -u + y, 0);
    assert (u + y) + (-u + y) == 2 * y;
    Euclid(p, 2, y);
  }

  /** A collision happens only where one of the Z is 0 already. */
  lemma CollisionAtInfinity(p: int, d: int, e: int, a: Point, b: Point)
    requires Ed25519Field(p, d) && OnCurve(p, d, a) && OnCurve(p, d, b)
    requires e * e == 1 && Cong(p, a.z * b.z, e * (d * (a.t * b.t)))
    ensures Cong(p, a.z, 0) || Cong(p, b.z, 0)
  {
    hide Cong, OnCurve, SqrtM1;
    var root := SqrtM1(p);
    RootOfMinusOne(p);
    OppositeRoot(p, root);
    OneVanishes(p, d, root, e, a, b);
    OneVanishes(p, d, -root, e, a, b);
    var z, t := a.z * b.z, a.t * b.t;
    if Cong(p, a.t, 0) {
      ZeroFactor(p, a.t, b.t);
      VanishesToo(p, d, e, z, t);
    } else {
      assert -root * b.x == -(root * b.x);
      BothVanish(p, root * b.x, b.y);
      ZeroFactor(p, b.y, b.x);
      OnCurveProduct(p, d, b);
      Sym(p, b.x * b.y, b.z * b.t);
      Trans(p, b.z * b.t, b.y * b.x, 0);
      Euclid(p, b.z, b.t);
      if Cong(p, b.t, 0) {
        ZeroFactor(p, b.t, a.t);
        assert b.t * a.t == t;
        VanishesToo(p, d, e, z, t);
      }
    }
    if Cong(p, z, 0) {
      Euclid(p, a.z, b.z);
    }
  }

  lemma VanishesToo(p: int, d: int, e: int, z: int, t: int)
    requires p > 0 && Cong(p, z, e * (d * t)) && Cong(p, t, 0)
    ensures Cong(p, z, 0)
  {
    Scale(p, d, t, 0);
    Scale(p, e, d * t, 0);
    Trans(p, z, e * (d * t), 0);
  }

  /** F and G are not 0 at proper points. */
  lemma FactorsNonzero(p: int, d: int, a: Point, b: Point)
    requires Ed25519Field(p, d) && Proper(p, d, a) && Proper(p, d, b)
    ensures !Cong(p, FF(d, a, b), 0) && !Cong(p, GG(d, a, b), 0)
  {
    var z, v := a.z * b.z, d * (a.t * b.t);
    if Cong(p, z - v, 0) {
      assert Cong(p, z, 1 * v);
      CollisionAtInfinity(p, d, 1, a, b);
    }
    if Cong(p, z + v, 0) {
      assert Cong(p, z, -1 * v);
      CollisionAtInfinity(p, d, -1, a, b);
    }
  }

  /** Completeness: the sum of two points is a point, whatever the two are; doubling, inverses
      and IDENTITY are not exceptions. */
  lemma AddIsComplete(p: int, d: int, a: Point, b: Point)
    requires Ed25519Field(p, d) && Proper(p, d, a) && Proper(p, d, b)
    ensures Proper(p, d, PointAdd(p, d, a, b))
  {
    hide PointAdd, OnCurve, FF, GG;
    AddKeepsCurve(p, d, a, b);
    SumOfPoints(p, d, a, b);
    FactorsNonzero(p, d, a, b);
    var f, g := FF(d, a, b), GG(d, a, b);
    NonzeroProduct(p, f, g);
    assert !Cong(p, 4, 0);
    NonzeroProduct(p, 4, f * g);
    var z := PointAdd(p, d, a, b).z;
    if Cong(p, z, 0) {
      Sym(p, z, 4 * (f * g));
      Trans(p, 4 * (f * g), z, 0);
    }
  }

  ghost function Propers(p: int, d: int): Point -> bool
    requires p > 0
  {
    (a: Point) => Proper(p, d, a)
  }

  lemma PropersClosed(p: int, d: int)
    requires Ed25519Field(p, d)
    ensures forall a: Point, b: Point | Propers(p, d)(a) && Propers(p, d)(b) :: Propers(p, d)(Adder(p, d)(a, b))
  {
    hide PointAdd, OnCurve;
    forall a: Point, b: Point | Proper(p, d, a) && Proper(p, d, b)
      ensures Proper(p, d, Adder(p, d)(a, b))
    {
      AddIsComplete(p, d, a, b);
    }
  }

  lemma IdentityIsProper(p: int, d: int)
    requires p > 1
    ensures Proper(p, d, IDENTITY)
  {
    IdentityOnCurve(p, d);
  }

  /** Scalar multiplication never leaves the points with Z other than 0. */
  lemma MulIsComplete(p: int, d: int, k: nat, a: Point)
    requires Ed25519Field(p, d) && Proper(p, d, a)
    ensures Proper(p, d, Climb(Adder(p, d), IDENTITY, k, a))
  {
    hide PointAdd, OnCurve, Climb;
    IdentityIsProper(p, d);
    PropersClosed(p, d);
    ClimbKeeps(Adder(p, d), Propers(p, d), IDENTITY, k, a);
  }

  /** phi reads the points in (op, id): their sums as op, IDENTITY as id. Only points are read;
      what phi does with tuples that stand for none is its own affair. */
  ghost predicate ReadsPoints<T(!new)>(p: int, d: int, phi: Point -> T, op: (T, T) -> T, id: T)
    requires p > 0
  {
    && phi(IDENTITY) == id
    && forall a, b :: Proper(p, d, a) && Proper(p, d, b) ==> phi(PointAdd(p, d, a, b)) == op(phi(a), phi(b))
  }

  /** Whatever group the points are read in, what PointMul returns for a point reads as that many
      times the point. */
  lemma MulIsMultiple<T(!new)>(p: int, d: int, phi: Point -> T, op: (T, T) -> T, id: T, k: nat, a: Point)
    requires Ed25519Field(p, d) && Proper(p, d, a)
    requires Monoid(op, id) && ReadsPoints(p, d, phi, op, id)
    ensures phi(Climb(Adder(p, d), IDENTITY, k, a)) == Multiple(op, id, k, phi(a))
  {
    hide PointAdd, Proper, Climb, Multiple, Monoid;
    IdentityIsProper(p, d);
    PropersClosed(p, d);
    assert Reads(Adder(p, d), Propers(p, d), phi, op);
    ClimbIsMultiple(Adder(p, d), Propers(p, d), phi, op, id, IDENTITY, k, a);
    IdentityIsLeft(op, id, Multiple(op, id, k, phi(a)));
  }
}
