/** Reading a point back from its 32 octets: _recover_x and _point_decompress of
    ci/verify_vectors.py (section 5.1.3 of RFC 8032). */
module Recovery {
  import opened Bytes
  import opened Congruence
  import opened Fermat
  import opened Edwards
  import opened Completeness

  /** -x^2 + y^2 = 1 + d x^2 y^2, modulo p. */
  predicate OnAffineCurve(p: int, d: int, x: int, y: int)
    requires p > 0
  {
    Cong(p, y * y - x * x, 1 + d * ((x * x) * (y * y)))
  }

  /** x2: (y^2 - 1) / (d y^2 + 1), the inverse taken by raising to p - 2. */
  function SquareOfX(p: int, d: int, y: int): (x2: int)
    requires p > 2
    ensures 0 <= x2 < p
  {
    ((y * y - 1) * (Power(d * y * y + 1, p - 2) % p)) % p
  }

  /** The first of the two square roots that are tried. */
  function Candidate(p: int, x2: int): (c: int)
    requires p > 2
    ensures 0 <= c < p
  {
    Power(x2, (p + 3) / 8) % p
  }

  /** x is the least residue with the wanted square and the wanted low bit. */
  predicate Recovered(p: int, x2: int, sign: int, x: int)
    requires p > 0
  {
    0 <= x < p && IsRoot(p, x, x2) && x % 2 == sign
  }

  /** p - x has the square of x and the other parity. */
  lemma Flip(p: int, x2: int, x: int)
    requires p > 2 && p % 2 == 1 && 0 < x2 < p && 0 <= x < p && IsRoot(p, x, x2)
    ensures Recovered(p, x2, 1 - x % 2, p - x)
  {
    hide IsRoot;
    if x == 0 {
      ZeroRoot(p, x2);
    } else {
      NegatedRoot(p, x2, x);
    }
  }

  lemma NegatedRoot(p: int, x2: int, x: int)
    requires p > 0 && IsRoot(p, x, x2)
    ensures IsRoot(p, p - x, x2)
  {
    hide Cong;
    assert (p - x) * (p - x) - x * x == (p - 2 * x) * p;
    Witness(p, (p - x) * (p - x), x * x, p - 2 * x);
    Trans(p, (p - x) * (p - x), x * x, x2);
  }

  lemma ZeroRoot(p: int, x2: int)
    requires 0 < x2 < p
    ensures !IsRoot(p, 0, x2)
  {
    assert (0 - x2) % p == p - x2;
  }

  // ------------------------------------------------------------ the candidates suffice

  lemma Exponents(b: int, k: nat)
    ensures Power(b, k + 1) * Power(b, k + 1) == b * Power(b, 2 * k + 1)
  {
    PowerSum(b, k + 1, k + 1);
  }

  /** Half the exponent p - 1 is reached with a sign. */
  lemma HalfPower(p: int, w: int, k: nat)
    requires Prime(p) && p == 8 * k + 5 && !Cong(p, w, 0)
    ensures Cong(p, Power(w * w, 2 * k + 1), 1) || Cong(p, Power(w * w, 2 * k + 1), -1)
  {
    PowerOfSquare(w, 2 * k + 1);
    var h := Power(w, 4 * k + 2);
    PowerSum(w, 4 * k + 2, 4 * k + 2);
    LittleTheorem(p, w);
    assert Cong(p, h * h, 1 * 1);
    SameSquare(p, h, 1);
  }

  /** If x2 has a square root at all, Candidate or Candidate times the root of -1 is one. */
  lemma CandidateSuffices(p: int, d: int, x2: int, w: int)
    requires Ed25519Field(p, d) && 0 < x2 < p && IsRoot(p, w, x2)
    ensures IsRoot(p, Candidate(p, x2), x2) || IsRoot(p, (Candidate(p, x2) * SqrtM1(p)) % p, x2)
  {
    hide Cong, Prime, Power, Candidate, SqrtM1;
    var k := (p - 5) / 8;
    EighthOf(p, k);
    RootNonzero(p, w, x2);
    HalfPower(p, w, k);
    Sym(p, w * w, x2);
    PowerCong(p, x2, w * w, 2 * k + 1);
    SquareOfCandidate(p, x2, k);
    RootOfMinusOne(p);
    OneOfTwo(p, SqrtM1(p), x2, Candidate(p, x2), Power(x2, 2 * k + 1), Power(w * w, 2 * k + 1));
  }

  lemma EighthOf(p: int, k: int)
    requires p % 8 == 5 && k == (p - 5) / 8
    ensures p == 8 * k + 5
  {
  }

  lemma OneOfTwo(p: int, root: int, x2: int, c: int, h: int, h': int)
    requires p > 0 && IsRoot(p, root, -1) && Cong(p, c * c, x2 * h) && Cong(p, h, h')
    requires Cong(p, h', 1) || Cong(p, h', -1)
    ensures IsRoot(p, c, x2) || IsRoot(p, (c * root) % p, x2)
  {
    hide Cong;
    if Cong(p, h', 1) {
      Trans(p, h, h', 1);
      Scale(p, x2, h, 1);
      Trans(p, c * c, x2 * h, x2);
    } else {
      Trans(p, h, h', -1);
      Scale(p, x2, h, -1);
      Trans(p, c * c, x2 * h, -x2);
      Rotate(p, root, c, x2);
    }
  }

  lemma RootNonzero(p: int, w: int, x2: int)
    requires 0 < x2 < p && IsRoot(p, w, x2)
    ensures !Cong(p, w, 0)
  {
    if Cong(p, w, 0) {
      Square(p, w, 0);
      Sym(p, w * w, x2);
      Trans(p, x2, w * w, 0);
    }
  }

  lemma SquareOfCandidate(p: int, x2: int, k: nat)
    requires p == 8 * k + 5
    ensures Cong(p, Candidate(p, x2) * Candidate(p, x2), x2 * Power(x2, 2 * k + 1))
  {
    hide Cong, Power;
    assert (p + 3) / 8 == k + 1;
    var b := Power(x2, k + 1);
    Reduce(p, b);
    Square(p, b % p, b);
    Exponents(x2, k);
  }

  /** Multiplying by the root of -1 turns a root of -x2 into a root of x2. */
  lemma Rotate(p: int, root: int, c: int, x2: int)
    requires p > 0 && IsRoot(p, root, -1) && IsRoot(p, c, -x2)
    ensures IsRoot(p, (c * root) % p, x2)
  {
    hide Cong;
    Reduce(p, c * root);
    Square(p, (c * root) % p, c * root);
    Times(p, c * c, -x2, root * root, -1);
    Regroup(c, root, c, root);
    Trans(p, ((c * root) % p) * ((c * root) % p), (c * root) * (c * root), x2);
  }

  // ------------------------------------------------------------ x2 is the x^2 of the curve

  /** d y^2 + 1 is never 0, since d is no square and -1 is one. */
  lemma DenominatorNonzero(p: int, d: int, y: int)
    requires Ed25519Field(p, d)
    ensures !Cong(p, d * (y * y) + 1, 0)
  {
    if Cong(p, d * (y * y) + 1, 0) {
      if Cong(p, y, 0) {
        Square(p, y, 0);
        Scale(p, d, y * y, 0);
        Same(p, 1);
        Plus(p, d * (y * y), 0, 1, 1);
        Sym(p, d * (y * y) + 1, 1);
        Trans(p, 1, d * (y * y) + 1, 0);
      } else {
        Sym(p, d * (y * y), -1);
        var root := SqrtM1(p);
        RootOfMinusOne(p);
        Trans(p, root * root, -1, d * (y * y));
        NotSquareTimes(p, d, y, root);
      }
    }
  }

  /** x2 times the denominator is the numerator. */
  lemma SquareOfXSolves(p: int, d: int, y: int)
    requires Ed25519Field(p, d) && p > 2
    ensures
      var v := d * (y * y) + 1;
      !Cong(p, v, 0) && Cong(p, v * SquareOfX(p, d, y), y * y - 1)
  {
    hide Cong, Prime, Power;
    var v, n := d * (y * y) + 1, y * y - 1;
    DenominatorNonzero(p, d, y);
    Inverse(p, v);
    assert d * y * y == d * (y * y);
    QuotientSolves(p, v, n, Power(v, p - 2) % p);
  }

  lemma QuotientSolves(p: int, v: int, n: int, i: int)
    requires p > 0 && Cong(p, v * i, 1)
    ensures Cong(p, v * ((n * i) % p), n)
  {
    hide Cong;
    Reduce(p, n * i);
    Scale(p, v, (n * i) % p, n * i);
    Scale(p, n, v * i, 1);
    Commute(v, n, i);
    Trans(p, v * ((n * i) % p), n * (v * i), n);
  }

  /** The square roots of x2 are the x of the curve's points at height y. */
  lemma RootIsOnCurve(p: int, d: int, y: int, x: int)
    requires Ed25519Field(p, d) && p > 2
    ensures IsRoot(p, x, SquareOfX(p, d, y)) <==> OnAffineCurve(p, d, x, y)
  {
    hide Cong, Prime, SquareOfX;
    SquareOfXSolves(p, d, y);
    var v, x2, n := d * (y * y) + 1, SquareOfX(p, d, y), y * y - 1;
    Affine(p, d, x, y);
    if IsRoot(p, x, x2) {
      Scale(p, v, x * x, x2);
      Trans(p, v * (x * x), v * x2, n);
    }
    if Cong(p, v * (x * x), n) {
      Sym(p, v * x2, n);
      Trans(p, v * (x * x), n, v * x2);
      CancelFactor(p, v, x * x, x2);
    }
  }

  lemma Affine(p: int, d: int, x: int, y: int)
    requires p > 0
    ensures OnAffineCurve(p, d, x, y) <==> Cong(p, (d * (y * y) + 1) * (x * x), y * y - 1)
  {
    hide Cong;
    var u, v := x * x, y * y;
    assert (d * v + 1) * u == d * (u * v) + u;
    Mirror(p, v - u, 1 + d * (u * v), (d * v + 1) * u, v - 1);
  }

  lemma Mirror(p: int, a: int, b: int, c: int, e: int)
    requires p > 0 && a - b == e - c
    ensures Cong(p, a, b) <==> Cong(p, c, e)
  {
    hide Cong;
    if Cong(p, a, b) {
      var k := Quotient(p, a, b);
      Witness(p, c, e, -k);
    }
    if Cong(p, c, e) {
      var k := Quotient(p, c, e);
      Witness(p, a, b, -k);
    }
  }

  /** Two least residues with the same square and the same low bit are one. */
  lemma RecoveredOnce(p: int, x2: int, sign: int, x: int, x': int)
    requires Prime(p) && p % 2 == 1 && Recovered(p, x2, sign, x) && Recovered(p, x2, sign, x')
    ensures x == x'
  {
    hide Cong, Prime;
    Sym(p, x' * x', x2);
    Trans(p, x * x, x2, x' * x');
    SameSquare(p, x, x');
    if Cong(p, x, x') {
      Whole(p, x, x');
    } else {
      Whole(p, x, -x');
    }
  }

  /** Congruent numbers less than 2 p apart, of the same parity, are equal when p is odd. */
  lemma Whole(p: int, x: int, y: int)
    requires p > 0 && p % 2 == 1 && 0 <= x < p && -p < y < p && x % 2 == y % 2 && Cong(p, x, y)
    ensures x == y
  {
    hide Cong;
    var k := Quotient(p, x, y);
    SameParity(x, y);
    SmallFactor(p, k, x - y);
  }

  lemma SameParity(x: int, y: int)
    requires x % 2 == y % 2
    ensures (x - y) % 2 == 0
  {
  }

  lemma SmallFactor(p: int, k: int, z: int)
    requires p > 0 && p % 2 == 1 && z == k * p && -p < z < 2 * p && z % 2 == 0
    ensures z == 0
  {
    if k >= 2 {
      Larger(p, 2, k);
    } else if k <= -1 {
      Larger(p, k, -1);
    }
  }

  lemma ExactlyTheCurve(p: int, d: int, y: int, sign: int, r: Option<int>, x: int)
    requires Ed25519Field(p, d) && p > 2 && p % 2 == 1 && 0 <= sign <= 1
    requires r.Some? ==> y < p && Recovered(p, SquareOfX(p, d, y), sign, r.value)
    requires
      var x2 := SquareOfX(p, d, y);
      var c := Candidate(p, x2);
      r.None? ==>
        || y >= p
        || (x2 == 0 && sign == 1)
        || (x2 != 0 && !IsRoot(p, c, x2) && !IsRoot(p, (c * SqrtM1(p)) % p, x2))
    ensures r == Some(x) <==> y < p && 0 <= x < p && x % 2 == sign && OnAffineCurve(p, d, x, y)
  {
    hide SquareOfX, Candidate, SqrtM1, OnAffineCurve, Cong, Prime;
    RootIsOnCurve(p, d, y, x);
    var x2 := SquareOfX(p, d, y);
    if y < p && Recovered(p, x2, sign, x) {
      match r
      case Some(x') =>
        RecoveredOnce(p, x2, sign, x, x');
      case None =>
        if x2 == 0 {
          RootOfZero(p, x);
        } else {
          CandidateSuffices(p, d, x2, x);
        }
    }
  }

  lemma RootOfZero(p: int, x: int)
    requires Prime(p) && 0 <= x < p && IsRoot(p, x, 0)
    ensures x == 0
  {
    Euclid(p, x, x);
  }

  /** _recover_x. Whenever x is returned it is a least residue with the square x2 and the low bit
      asked for, for every odd modulus. Over a prime congruent to 5 modulo 8 and a d that is not a
      square, x is returned exactly when (x, y) is on the curve, and nothing exactly when no x with
      that low bit is. */
  method RecoverX(p: int, d: int, y: int, sign: int) returns (r: Option<int>)
    requires p > 2 && p % 2 == 1 && 0 <= sign <= 1
    ensures r.Some? ==> y < p && Recovered(p, SquareOfX(p, d, y), sign, r.value)
    ensures Ed25519Field(p, d) ==>
              forall x :: r == Some(x) <==> y < p && 0 <= x < p && x % 2 == sign && OnAffineCurve(p, d, x, y)
  {
    hide SquareOfX, Candidate, SqrtM1, OnAffineCurve, Ed25519Field;
    if y >= p {
      return None;
    }
    var x2 := SquareOfX(p, d, y);
    if x2 == 0 {
      r := if sign != 0 then None else Some(0);
      assert r.Some? ==> Recovered(p, x2, sign, 0) by { Same(p, 0); }
      Conclude(p, d, y, sign, r);
      return;
    }
    var x := Candidate(p, x2);
    if (x * x - x2) % p != 0 {
      x := (x * SqrtM1(p)) % p;
    }
    if (x * x - x2) % p != 0 {
      r := None;
      Conclude(p, d, y, sign, r);
      return;
    }
    if x % 2 != sign {
      Flip(p, x2, x);
      x := p - x;
    }
    r := Some(x);
    Conclude(p, d, y, sign, r);
  }

  lemma Conclude(p: int, d: int, y: int, sign: int, r: Option<int>)
    requires p > 2 && p % 2 == 1 && 0 <= sign <= 1 && y < p
    requires r.Some? ==> Recovered(p, SquareOfX(p, d, y), sign, r.value)
    requires
      var x2 := SquareOfX(p, d, y);
      var c := Candidate(p, x2);
      r.None? ==>
        || (x2 == 0 && sign == 1)
        || (x2 != 0 && !IsRoot(p, c, x2) && !IsRoot(p, (c * SqrtM1(p)) % p, x2))
    ensures Ed25519Field(p, d) ==>
              forall x :: r == Some(x) <==> 0 <= x < p && x % 2 == sign && OnAffineCurve(p, d, x, y)
  {
    if Ed25519Field(p, d) {
      forall x: int
        ensures r == Some(x) <==> 0 <= x < p && x % 2 == sign && OnAffineCurve(p, d, x, y)
      {
        ExactlyTheCurve(p, d, y, sign, r, x);
      }
    }
  }

  // ------------------------------------------------------------ 32 octets

  /** Python's int.from_bytes(s, "little"). */
  function FromLE(s: bytes): nat {
    if s == [] then 0 else s[0] + 256 * FromLE(s[1..])
  }

  lemma {:induction false} FromLEInjective(s: bytes, t: bytes)
    requires |s| == |t| && FromLE(s) == FromLE(t)
    ensures s == t
  {
    if s != [] {
      FromLEInjective(s[1..], t[1..]);
      assert s == [s[0]] + s[1..] && t == [t[0]] + t[1..];
    }
  }

  /** Little-endian: reversed, the octets are the big-endian spelling of the same number. */
  lemma {:induction false} FromLEReversed(s: bytes, t: bytes)
    requires |s| == |t| && forall i | 0 <= i < |s| :: t[i] == s[|s| - 1 - i]
    ensures FromLE(s) == FromBE(t)
  {
    if s != [] {
      FromLEReversed(s[1..], t[..|t| - 1]);
    }
  }

  lemma {:induction false} FromLEBound(s: bytes)
    ensures FromLE(s) < Pow256(|s|)
  {
    if s != [] {
      FromLEBound(s[1..]);
    }
  }

  /** 2^255: the top bit of 32 octets carries the sign. */
  const SIGN_BIT := 0x8000_0000_0000_0000_0000_0000_0000_0000_0000_0000_0000_0000_0000_0000_0000_0000

  /** raw is the encoding of the point: y, with the low bit of x on top. */
  predicate Encodes(p: int, raw: bytes, a: Point)
    requires p > 0
  {
    && |raw| == 32
    && FromLE(raw) == a.y + (a.x % 2) * SIGN_BIT
    && 0 <= a.x < p && 0 <= a.y < p && a.y < SIGN_BIT
    && a.z == 1 && a.t == (a.x * a.y) % p
  }

  /** _point_decompress. What it accepts is the one encoding of the point it returns; over an
      Ed25519 field that point is on the curve, and every encoding of such a point is accepted. */
  method Decompress(p: int, d: int, raw: bytes) returns (r: Option<Point>)
    requires p > 2 && p % 2 == 1
    ensures r.Some? ==> Encodes(p, raw, r.value)
    ensures Ed25519Field(p, d) ==>
              forall a :: r == Some(a) <==> Encodes(p, raw, a) && OnAffineCurve(p, d, a.x, a.y)
  {
    hide OnAffineCurve, Ed25519Field, SquareOfX, FromLE, Encodes;
    if |raw| != 32 {
      WrongLength(p, raw);
      return None;
    }
    FromLEBound(raw);
    var n := FromLE(raw);
    var sign, y := n / SIGN_BIT, n % SIGN_BIT;
    assert n == sign * SIGN_BIT + y;
    TopBit(n);
    var x := RecoverX(p, d, y, sign);
    if x.None? {
      r := None;
    } else {
      r := Some(Point(x.value, y, 1, (x.value * y) % p));
      Split(p, raw, sign, y, r.value);
    }
    if Ed25519Field(p, d) {
      forall a: Point
        ensures r == Some(a) <==> Encodes(p, raw, a) && OnAffineCurve(p, d, a.x, a.y)
      {
        Rebuilt(p, d, raw, sign, y, x, a);
      }
    }
  }

  /** The point built from x and y, given that x is recovered exactly. */
  function Rebuild(p: int, x: Option<int>, y: int): Option<Point>
    requires p > 0
  {
    match x
    case None => None
    case Some(v) => Some(Point(v, y, 1, (v * y) % p))
  }

  lemma Rebuilt(p: int, d: int, raw: bytes, sign: int, y: int, x: Option<int>, a: Point)
    requires p > 0 && |raw| == 32 && FromLE(raw) == sign * SIGN_BIT + y && 0 <= y < SIGN_BIT && 0 <= sign <= 1
    requires x == Some(a.x) <==> y < p && 0 <= a.x < p && a.x % 2 == sign && OnAffineCurve(p, d, a.x, y)
    ensures Rebuild(p, x, y) == Some(a) <==> Encodes(p, raw, a) && OnAffineCurve(p, d, a.x, a.y)
  {
    hide OnAffineCurve, FromLE;
    Split(p, raw, sign, y, a);
    if Encodes(p, raw, a) && OnAffineCurve(p, d, a.x, a.y) {
      assert x == Some(a.x);
    }
  }

  lemma WrongLength(p: int, raw: bytes)
    requires p > 0 && |raw| != 32
    ensures forall a :: !Encodes(p, raw, a)
  {
  }

  lemma TopBit(n: nat)
    requires n < Pow256(32)
    ensures 0 <= n / SIGN_BIT <= 1
  {
    hide Pow256;
    ThirtyTwoOctets();
  }

  lemma ThirtyTwoOctets()
    ensures Pow256(32) == 2 * SIGN_BIT
  {
    EightOctets();
    assert Pow256(16) == 0x1_0000_0000_0000_0000 * 0x1_0000_0000_0000_0000;
    assert Pow256(24) == Pow256(16) * 0x1_0000_0000_0000_0000;
  }

  lemma Split(p: int, raw: bytes, sign: int, y: int, a: Point)
    requires p > 0 && |raw| == 32 && FromLE(raw) == sign * SIGN_BIT + y && 0 <= y < SIGN_BIT && 0 <= sign <= 1
    ensures Encodes(p, raw, a) <==>
              && a.y == y && a.x % 2 == sign && a.z == 1 && a.t == (a.x * a.y) % p
              && 0 <= a.x < p && y < p
  {
    hide FromLE;
    Digits(sign, y, a.x % 2, a.y);
  }

  lemma Digits(s: int, y: int, s': int, y': int)
    requires 0 <= y < SIGN_BIT
    ensures 0 <= y' < SIGN_BIT ==> (s * SIGN_BIT + y == y' + s' * SIGN_BIT <==> s == s' && y == y')
  {
  }

  /** No two encodings decode to one point. */
  lemma EncodesOnce(p: int, raw: bytes, raw': bytes, a: Point)
    requires p > 0 && Encodes(p, raw, a) && Encodes(p, raw', a)
    ensures raw == raw'
  {
    FromLEInjective(raw, raw');
  }

  /** A decoded point is proper: it can be added and multiplied without exceptions. */
  lemma DecodedIsProper(p: int, d: int, raw: bytes, a: Point)
    requires p > 1 && Encodes(p, raw, a) && OnAffineCurve(p, d, a.x, a.y)
    ensures Proper(p, d, a)
  {
    hide Cong;
    var n := a.x * a.y;
    Reduce(p, n);
    Square(p, n % p, n);
    Scale(p, d, (n % p) * (n % p), n * n);
    Regroup(a.x, a.y, a.x, a.y);
    Same(p, 1);
    Plus(p, 1, 1, d * (a.t * a.t), d * (n * n));
    Sym(p, 1 + d * (a.t * a.t), 1 + d * (n * n));
    Trans(p, a.y * a.y - a.x * a.x, 1 + d * (n * n), 1 + d * (a.t * a.t));
    Sym(p, n % p, n);
    OneIsNotZero(p);
  }

  lemma OneIsNotZero(p: int)
    requires p > 1
    ensures !Cong(p, 1, 0)
  {
  }
}
