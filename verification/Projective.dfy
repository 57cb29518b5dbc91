/** _point_equal of ci/verify_vectors.py, and that addition is well defined on the points it
    identifies. */
module Projective {
  import opened Congruence
  import opened Fermat
  import opened Ladder
  import opened Edwards
  import opened Completeness

  /** _point_equal. */
  predicate PointEqual(p: int, a: Point, b: Point)
    requires p > 0
  {
    && (a.x * b.z - b.x * a.z) % p == 0
    && (a.y * b.z - b.y * a.z) % p == 0
  }

  /** Ratios: if n1/z1 = n2/z2 and n2/z2 = n3/z3 then n1/z1 = n3/z3. */
  lemma RatioTrans(p: int, n1: int, z1: int, n2: int, z2: int, n3: int, z3: int)
    requires Prime(p) && !Cong(p, z2, 0)
    requires Cong(p, n1 * z2, n2 * z1) && Cong(p, n2 * z3, n3 * z2)
    ensures Cong(p, n1 * z3, n3 * z1)
  {
    hide Cong;
    Scale(p, z3, n1 * z2, n2 * z1);
    Scale(p, z1, n2 * z3, n3 * z2);
    assert z3 * (n1 * z2) == z2 * (n1 * z3);
    assert z3 * (n2 * z1) == z1 * (n2 * z3);
    assert z1 * (n3 * z2) == z2 * (n3 * z1);
    Trans(p, z2 * (n1 * z3), z1 * (n2 * z3), z2 * (n3 * z1));
    CancelFactor(p, z2, n1 * z3, n3 * z1);
  }

  /** Among points with Z not 0, _point_equal is an equivalence. */
  lemma EqualIsEquivalence(p: int, a: Point, b: Point, c: Point)
    requires Prime(p) && !Cong(p, b.z, 0)
    ensures PointEqual(p, a, a)
    ensures PointEqual(p, a, b) ==> PointEqual(p, b, a)
    ensures PointEqual(p, a, b) && PointEqual(p, b, c) ==> PointEqual(p, a, c)
  {
    if PointEqual(p, a, b) {
      Sym(p, a.x * b.z, b.x * a.z);
      Sym(p, a.y * b.z, b.y * a.z);
      if PointEqual(p, b, c) {
        RatioTrans(p, a.x, a.z, b.x, b.z, c.x, c.z);
        RatioTrans(p, a.y, a.z, b.y, b.z, c.y, c.z);
      }
    }
  }

  /** Equal points agree in T / Z as well, although _point_equal does not look at T. */
  lemma EqualInT(p: int, d: int, a: Point, b: Point)
    requires Prime(p) && Proper(p, d, a) && Proper(p, d, b) && PointEqual(p, a, b)
    ensures Cong(p, a.t * b.z, b.t * a.z)
  {
    OnCurveProduct(p, d, a);
    OnCurveProduct(p, d, b);
    NonzeroProduct(p, a.z, b.z);
    TRatio(p, a, b);
  }

  lemma PullOut(z: int, t: int, w: int)
    ensures (w * w) * (z * t) == (z * w) * (t * w)
  {
    Regroup(w, w, z, t);
  }

  lemma TRatio(p: int, a: Point, b: Point)
    requires Prime(p) && !Cong(p, a.z * b.z, 0)
    requires Cong(p, a.x * b.z, b.x * a.z) && Cong(p, a.y * b.z, b.y * a.z)
    requires Cong(p, a.x * a.y, a.z * a.t) && Cong(p, b.x * b.y, b.z * b.t)
    ensures Cong(p, a.t * b.z, b.t * a.z)
  {
    hide Cong;
    Times(p, a.x * b.z, b.x * a.z, a.y * b.z, b.y * a.z);
    Regroup(a.x, b.z, a.y, b.z);
    Regroup(b.x, a.z, b.y, a.z);
    Scale(p, b.z * b.z, a.x * a.y, a.z * a.t);
    Scale(p, a.z * a.z, b.x * b.y, b.z * b.t);
    var u, v := (b.z * b.z) * (a.x * a.y), (a.z * a.z) * (b.x * b.y);
    var u', v' := (b.z * b.z) * (a.z * a.t), (a.z * a.z) * (b.z * b.t);
    Sym(p, u, u');
    Trans(p, u', u, v);
    Trans(p, u', v, v');
    PullOut(a.z, a.t, b.z);
    PullOut(b.z, b.t, a.z);
    assert b.z * a.z == a.z * b.z;
    CancelFactor(p, a.z * b.z, a.t * b.z, b.t * a.z);
  }

  lemma Scaled(p: int, n1: int, z1: int, n2: int, z2: int, i: int)
    requires p > 0 && Cong(p, n1 * z2, n2 * z1) && Cong(p, z1 * i, 1)
    ensures Cong(p, n2, (z2 * i) * n1)
  {
    hide Cong;
    Scale(p, i, n1 * z2, n2 * z1);
    Scale(p, n2, z1 * i, 1);
    assert i * (n1 * z2) == (z2 * i) * n1;
    assert i * (n2 * z1) == n2 * (z1 * i);
    Trans(p, (z2 * i) * n1, n2 * (z1 * i), n2);
    Sym(p, (z2 * i) * n1, n2);
  }

  lemma BackToRatio(p: int, n1: int, z1: int, n2: int, z2: int, c: int)
    requires p > 0 && Cong(p, n2, c * n1) && Cong(p, z2, c * z1)
    ensures Cong(p, n1 * z2, n2 * z1)
  {
    hide Cong;
    Scale(p, n1, z2, c * z1);
    Scale(p, z1, n2, c * n1);
    assert n1 * (c * z1) == z1 * (c * n1) && z1 * n2 == n2 * z1;
    Sym(p, n2 * z1, n1 * (c * z1));
    Trans(p, n1 * z2, n1 * (c * z1), n2 * z1);
  }

  /** All four coordinates of b are c times those of a. */
  predicate Multiples(p: int, c: int, a: Point, b: Point)
    requires p > 0
  {
    Cong(p, b.x, c * a.x) && Cong(p, b.y, c * a.y) && Cong(p, b.z, c * a.z) && Cong(p, b.t, c * a.t)
  }

  /** Two points are equal exactly when their coordinates are proportional, T included. */
  lemma EqualIsProportional(p: int, d: int, a: Point, b: Point)
    requires Prime(p) && Proper(p, d, a) && Proper(p, d, b)
    ensures PointEqual(p, a, b) <==> exists c :: !Cong(p, c, 0) && Multiples(p, c, a, b)
  {
    hide Cong, OnCurve, Prime;
    PrimePositive(p);
    if PointEqual(p, a, b) {
      EqualInT(p, d, a, b);
      EqualRatios(p, a, b);
      Inverse(p, a.z);
      var i := Power(a.z, p - 2) % p;
      Scaled(p, a.x, a.z, b.x, b.z, i);
      Scaled(p, a.y, a.z, b.y, b.z, i);
      Same(p, a.z * b.z);
      assert a.z * b.z == b.z * a.z;
      Scaled(p, a.z, a.z, b.z, b.z, i);
      Scaled(p, a.t, a.z, b.t, b.z, i);
      var c := b.z * i;
      assert Multiples(p, c, a, b);
      NonzeroFactor(p, c, a.z, b.z);
    }
    if c :| !Cong(p, c, 0) && Multiples(p, c, a, b) {
      BackToRatio(p, a.x, a.z, b.x, b.z, c);
      BackToRatio(p, a.y, a.z, b.y, b.z, c);
      EqualRatios(p, a, b);
    }
  }

  lemma EqualRatios(p: int, a: Point, b: Point)
    requires p > 0
    ensures PointEqual(p, a, b) <==> Cong(p, a.x * b.z, b.x * a.z) && Cong(p, a.y * b.z, b.y * a.z)
  {
  }

  lemma NonzeroFactor(p: int, c: int, x: int, y: int)
    requires p > 0 && Cong(p, y, c * x) && !Cong(p, y, 0)
    ensures !Cong(p, c, 0)
  {
    if Cong(p, c, 0) {
      ZeroFactor(p, c, x);
      Trans(p, y, c * x, 0);
    }
  }

  /** A product of two coordinates scales with both points. */
  lemma ProductScales(p: int, n1: int, z1: int, m1: int, w1: int, n2: int, z2: int, m2: int, w2: int)
    requires p > 0 && Cong(p, n1 * w1, m1 * z1) && Cong(p, n2 * w2, m2 * z2)
    ensures Cong(p, (n1 * n2) * (w1 * w2), (m1 * m2) * (z1 * z2))
  {
    hide Cong;
    Times(p, n1 * w1, m1 * z1, n2 * w2, m2 * z2);
    Regroup(n1, w1, n2, w2);
    Regroup(m1, z1, m2, z2);
  }

  /** The four factors of two equal pairs of points are in the same ratio, Z1 Z2 to Z1' Z2'. */
  lemma FactorsScale(p: int, d: int, a: Point, b: Point, a': Point, b': Point)
    requires p > 0
    requires Cong(p, a.x * a'.z, a'.x * a.z) && Cong(p, b.x * b'.z, b'.x * b.z)
    requires Cong(p, a.y * a'.z, a'.y * a.z) && Cong(p, b.y * b'.z, b'.y * b.z)
    requires Cong(p, a.t * a'.z, a'.t * a.z) && Cong(p, b.t * b'.z, b'.t * b.z)
    ensures
      var z, z' := a.z * b.z, a'.z * b'.z;
      && Cong(p, EE(a, b) * z', EE(a', b') * z)
      && Cong(p, HH(a, b) * z', HH(a', b') * z)
      && Cong(p, FF(d, a, b) * z', FF(d, a', b') * z)
      && Cong(p, GG(d, a, b) * z', GG(d, a', b') * z)
  {
    hide Cong;
    var z, z' := a.z * b.z, a'.z * b'.z;
    ProductScales(p, a.x, a.z, a'.x, a'.z, b.y, b.z, b'.y, b'.z);
    ProductScales(p, a.y, a.z, a'.y, a'.z, b.x, b.z, b'.x, b'.z);
    Sums(p, a.x * b.y, a.y * b.x, a'.x * b'.y, a'.y * b'.x, z, z');
    ProductScales(p, a.y, a.z, a'.y, a'.z, b.y, b.z, b'.y, b'.z);
    ProductScales(p, a.x, a.z, a'.x, a'.z, b.x, b.z, b'.x, b'.z);
    Sums(p, a.y * b.y, a.x * b.x, a'.y * b'.y, a'.x * b'.x, z, z');
    ProductScales(p, a.t, a.z, a'.t, a'.z, b.t, b.z, b'.t, b'.z);
    var t, t' := a.t * b.t, a'.t * b'.t;
    Scale(p, d, t * z', t' * z);
    assert d * (t * z') == (d * t) * z' && d * (t' * z) == (d * t') * z;
    Same(p, z * z');
    assert z * z' == z' * z;
    Sums(p, z, d * t, z', d * t', z, z');
  }

  lemma Sums(p: int, m: int, n: int, m': int, n': int, z: int, z': int)
    requires p > 0 && Cong(p, m * z', m' * z) && Cong(p, n * z', n' * z)
    ensures Cong(p, (m + n) * z', (m' + n') * z)
    ensures Cong(p, (m - n) * z', (m' - n') * z)
  {
    hide Cong;
    Plus(p, m * z', m' * z, n * z', n' * z);
    assert (m + n) * z' == m * z' + n * z' && (m' + n') * z == m' * z + n' * z;
    assert (m - n) * z' == m * z' - n * z' && (m' - n') * z == m' * z - n' * z;
  }

  /** One coordinate of two sums: 4EF over 4FG against 4E'F' over 4F'G'. */
  lemma SumRatio(p: int, n: int, m: int, e: int, f: int, g: int,
                 n': int, m': int, e': int, f': int, g': int, z: int, z': int)
    requires Prime(p) && !Cong(p, z, 0)
    requires Cong(p, e * z', e' * z) && Cong(p, g * z', g' * z)
    requires Cong(p, n, 4 * (e * f)) && Cong(p, m, 4 * (f * g))
    requires Cong(p, n', 4 * (e' * f')) && Cong(p, m', 4 * (f' * g'))
    ensures Cong(p, n * m', n' * m)
  {
    hide Cong;
    Cross(p, e, g, e', g', z, z');
    Scale(p, 16 * (f * f'), e * g', e' * g);
    Times(p, n, 4 * (e * f), m', 4 * (f' * g'));
    Times(p, n', 4 * (e' * f'), m, 4 * (f * g));
    Sixteen(e, f, f', g');
    Sixteen(e', f', f, g);
    var u, v := 16 * (f * f') * (e * g'), 16 * (f * f') * (e' * g);
    assert 16 * (f' * f) * (e' * g) == v by { assert f' * f == f * f'; }
    Sym(p, n' * m, v);
    Trans(p, n * m', u, v);
    Trans(p, n * m', v, n' * m);
  }

  lemma Sixteen(e: int, f: int, f': int, g': int)
    ensures (4 * (e * f)) * (4 * (f' * g')) == 16 * (f * f') * (e * g')
  {
    Regroup(f, e, f', g');
    assert (e * f) * (f' * g') == (f * f') * (e * g');
  }

  lemma Cross(p: int, e: int, g: int, e': int, g': int, z: int, z': int)
    requires Prime(p) && !Cong(p, z, 0)
    requires Cong(p, e * z', e' * z) && Cong(p, g * z', g' * z)
    ensures Cong(p, e * g', e' * g)
  {
    hide Cong;
    Sym(p, g * z', g' * z);
    Scale(p, e, g' * z, g * z');
    Scale(p, g, e * z', e' * z);
    assert e * (g' * z) == z * (e * g');
    assert e * (g * z') == g * (e * z');
    assert g * (e' * z) == z * (e' * g);
    Trans(p, z * (e * g'), g * (e * z'), z * (e' * g));
    CancelFactor(p, z, e * g', e' * g);
  }

  /** Equal points have equal sums: addition is a function of the points, not of their
      coordinates. */
  lemma AddRespectsEqual(p: int, d: int, a: Point, b: Point, a': Point, b': Point)
    requires Prime(p)
    requires Proper(p, d, a) && Proper(p, d, b) && Proper(p, d, a') && Proper(p, d, b')
    requires PointEqual(p, a, a') && PointEqual(p, b, b')
    ensures PointEqual(p, PointAdd(p, d, a, b), PointAdd(p, d, a', b'))
  {
    hide PointAdd, OnCurve, EE, FF, GG, HH;
    EqualInT(p, d, a, a');
    EqualInT(p, d, b, b');
    FactorsScale(p, d, a, b, a', b');
    NonzeroProduct(p, a.z, b.z);
    SumOfPoints(p, d, a, b);
    SumOfPoints(p, d, a', b');
    var s, s' := PointAdd(p, d, a, b), PointAdd(p, d, a', b');
    var e, f, g, h := EE(a, b), FF(d, a, b), GG(d, a, b), HH(a, b);
    var e', f', g', h' := EE(a', b'), FF(d, a', b'), GG(d, a', b'), HH(a', b');
    SumRatio(p, s.x, s.z, e, f, g, s'.x, s'.z, e', f', g', a.z * b.z, a'.z * b'.z);
    assert g * h == h * g && f * g == g * f && g' * h' == h' * g' && f' * g' == g' * f';
    SumRatio(p, s.y, s.z, h, g, f, s'.y, s'.z, h', g', f', a.z * b.z, a'.z * b'.z);
  }

  /** So do their scalar multiples, whatever the loop started from. */
  lemma {:induction false} MulRespectsEqual(p: int, d: int, acc: Point, acc': Point, k: nat, a: Point, a': Point)
    requires Ed25519Field(p, d)
    requires Proper(p, d, acc) && Proper(p, d, acc') && PointEqual(p, acc, acc')
    requires Proper(p, d, a) && Proper(p, d, a') && PointEqual(p, a, a')
    ensures PointEqual(p, Climb(Adder(p, d), acc, k, a), Climb(Adder(p, d), acc', k, a'))
    decreases k
  {
    hide Proper, PointEqual, PointAdd;
    if k > 0 {
      AddIsComplete(p, d, a, a);
      AddIsComplete(p, d, a', a');
      AddRespectsEqual(p, d, a, a, a', a');
      AddIsComplete(p, d, acc, a);
      AddIsComplete(p, d, acc', a');
      AddRespectsEqual(p, d, acc, a, acc', a');
      var next := if k % 2 == 1 then PointAdd(p, d, acc, a) else acc;
      var next' := if k % 2 == 1 then PointAdd(p, d, acc', a') else acc';
      MulRespectsEqual(p, d, next, next', k / 2, PointAdd(p, d, a, a), PointAdd(p, d, a', a'));
    }
  }

  /** IDENTITY is neutral up to _point_equal. */
  lemma IdentityIsNeutral(p: int, d: int, a: Point)
    requires p > 0 && OnCurve(p, d, a)
    ensures PointEqual(p, PointAdd(p, d, a, IDENTITY), a)
  {
    hide PointAdd, OnCurve, Cong;
    AddIdentity(p, d, a);
    var s, c := PointAdd(p, d, a, IDENTITY), 4 * a.z;
    Neutral(p, s.x, s.z, a.x, a.z, c);
    Neutral(p, s.y, s.z, a.y, a.z, c);
  }

  lemma Neutral(p: int, n: int, m: int, x: int, z: int, c: int)
    requires p > 0 && Cong(p, n, c * x) && Cong(p, m, c * z)
    ensures (n * z - x * m) % p == 0
  {
    Scale(p, z, n, c * x);
    Scale(p, x, m, c * z);
    Plus(p, z * n, z * (c * x), x * m, x * (c * z));
    assert z * (c * x) == x * (c * z);
  }

  function Negation(a: Point): Point {
    Point(-a.x, a.y, a.z, -a.t)
  }

  lemma NegationOnCurve(p: int, d: int, a: Point)
    requires p > 0 && OnCurve(p, d, a)
    ensures OnCurve(p, d, Negation(a))
  {
    OnCurveProduct(p, d, a);
    Signs(a.x, a.y);
    Signs(a.t, a.z);
    Scale(p, -1, a.x * a.y, a.z * a.t);
  }

  lemma Signs(x: int, y: int)
    ensures (-x) * (-x) == x * x && (-x) * y == -1 * (x * y) && y * (-x) == -1 * (y * x)
  {
  }

  /** E, F, G, H of a point and its negation. */
  lemma NegationFactors(p: int, d: int, a: Point)
    requires p > 0 && OnCurve(p, d, a)
    ensures
      var b := Negation(a);
      EE(a, b) == 0 && Cong(p, HH(a, b), FF(d, a, b))
  {
    hide Cong, OnCurve;
    Signs(a.x, a.y);
    Signs(a.x, a.x);
    Signs(a.t, a.t);
    assert EE(a, Negation(a)) == 0;
    assert HH(a, Negation(a)) == a.y * a.y - a.x * a.x;
    MinusSquare(d, a.t * a.t);
    assert FF(d, a, Negation(a)) == a.z * a.z + d * (a.t * a.t);
    OnCurveEquation(p, d, a);
  }

  lemma MinusSquare(d: int, s: int)
    ensures d * (-1 * s) == -(d * s)
  {
  }

  lemma OnCurveEquation(p: int, d: int, a: Point)
    requires p > 0 && OnCurve(p, d, a)
    ensures Cong(p, a.y * a.y - a.x * a.x, a.z * a.z + d * (a.t * a.t))
  {
  }

  /** A point and its negation sum to IDENTITY. */
  lemma NegationIsInverse(p: int, d: int, a: Point)
    requires p > 0 && OnCurve(p, d, a)
    ensures OnCurve(p, d, Negation(a))
    ensures PointEqual(p, PointAdd(p, d, a, Negation(a)), IDENTITY)
  {
    hide PointAdd, OnCurve, Cong, EE, FF, GG, HH;
    var b := Negation(a);
    var s := PointAdd(p, d, a, b);
    NegationOnCurve(p, d, a);
    NegationFactors(p, d, a);
    SumOfPoints(p, d, a, b);
    SumIsIdentity(p, s, FF(d, a, b), GG(d, a, b), HH(a, b));
  }

  lemma SumIsIdentity(p: int, s: Point, f: int, g: int, h: int)
    requires p > 0 && Cong(p, h, f)
    requires Cong(p, s.x, 4 * (0 * f)) && Cong(p, s.y, 4 * (g * h)) && Cong(p, s.z, 4 * (f * g))
    ensures PointEqual(p, s, IDENTITY)
  {
    Scale(p, 4 * g, h, f);
    assert 4 * g * h == 4 * (g * h) && 4 * g * f == 4 * (f * g);
    Trans(p, s.y, 4 * (g * h), 4 * (f * g));
    Sym(p, s.z, 4 * (f * g));
    Trans(p, s.y, 4 * (f * g), s.z);
  }
}
