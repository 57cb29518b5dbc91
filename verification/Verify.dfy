/** Signature verification: ed25519_verify of ci/verify_vectors.py, with SHA-512 an arbitrary
    function. */
module Verify {
  import opened Bytes
  import opened Ladder
  import opened Edwards
  import opened Fermat
  import opened Completeness
  import opened Projective
  import opened Recovery

  /** [k]A. */
  ghost function Times(p: int, d: int, k: nat, a: Point): Point
    requires p > 0
  {
    Climb(Adder(p, d), IDENTITY, k, a)
  }

  /** raw is the encoding of a point of the curve. */
  ghost predicate Names(p: int, d: int, raw: bytes, a: Point)
    requires p > 0
  {
    Encodes(p, raw, a) && OnAffineCurve(p, d, a.x, a.y)
  }

  /** What acceptance means over any parameters: each string is the one encoding of a point. */
  ghost predicate Equation(p: int, d: int, q: int, base: Point, sha512: bytes -> bytes,
                           public: bytes, message: bytes, signature: bytes, a: Point, r: Point)
    requires p > 0 && q > 0
  {
    && |signature| == 64
    && FromLE(signature[32..]) < q
    && Encodes(p, public, a)
    && Encodes(p, signature[..32], r)
    && PointEqual(p, Times(p, d, FromLE(signature[32..]), base),
                  PointAdd(p, d, r, Times(p, d, FromLE(sha512(signature[..32] + public + message)) % q, a)))
  }

  /** The acceptance rule of section 5.1.7 of RFC 8032: both octet strings name points of the
      curve, s is below the group order, and [s]B = R + [k]A. */
  ghost predicate Signed(p: int, d: int, q: int, base: Point, sha512: bytes -> bytes,
                         public: bytes, message: bytes, signature: bytes)
    requires p > 0 && q > 0
  {
    exists a, r ::
      && Equation(p, d, q, base, sha512, public, message, signature, a, r)
      && OnAffineCurve(p, d, a.x, a.y) && OnAffineCurve(p, d, r.x, r.y)
  }

  /** ed25519_verify. */
  method Ed25519Verify(p: int, d: int, q: int, base: Point, sha512: bytes -> bytes,
                       public: bytes, message: bytes, signature: bytes) returns (ok: bool)
    requires p > 2 && p % 2 == 1 && q > 0
    ensures ok ==> exists a, r :: Equation(p, d, q, base, sha512, public, message, signature, a, r)
    ensures Ed25519Field(p, d) ==> (ok <==> Signed(p, d, q, base, sha512, public, message, signature))
  {
    hide Encodes, OnAffineCurve, PointAdd, OnCurve, PointEqual, Climb, Ed25519Field, FromLE;
    if |public| != 32 || |signature| != 64 {
      if |public| != 32 {
        WrongLength(p, public);
      }
      return false;
    }
    var pointA := Decompress(p, d, public);
    if pointA.None? {
      return false;
    }
    var rRaw := signature[..32];
    var pointR := Decompress(p, d, rRaw);
    if pointR.None? {
      return false;
    }
    var s := FromLE(signature[32..]);
    if s >= q {
      return false;
    }
    var k := FromLE(sha512(rRaw + public + message)) % q;
    var left := PointMul(p, d, s, base);
    var right := PointMul(p, d, k, pointA.value);
    ok := PointEqual(p, left, PointAdd(p, d, pointR.value, right));
    assert ok ==> Equation(p, d, q, base, sha512, public, message, signature, pointA.value, pointR.value);
    if Ed25519Field(p, d) {
      assert forall a :: Names(p, d, public, a) ==> pointA == Some(a);
      assert forall r :: Names(p, d, rRaw, r) ==> pointR == Some(r);
    }
  }

  /** Every point the equation is about is proper, so nothing in it degenerates. */
  lemma EquationIsProper(p: int, d: int, base: Point, s: nat, k: nat,
                         public: bytes, a: Point, rRaw: bytes, r: Point)
    requires p > 1 && Ed25519Field(p, d) && Proper(p, d, base)
    requires Names(p, d, public, a) && Names(p, d, rRaw, r)
    ensures Proper(p, d, Times(p, d, s, base))
    ensures Proper(p, d, PointAdd(p, d, r, Times(p, d, k, a)))
  {
    hide PointAdd, OnCurve, Climb, OnAffineCurve, Encodes;
    DecodedIsProper(p, d, public, a);
    DecodedIsProper(p, d, rRaw, r);
    MulIsComplete(p, d, s, base);
    MulIsComplete(p, d, k, a);
    AddIsComplete(p, d, r, Times(p, d, k, a));
  }

  // ------------------------------------------------------------ who is accepted

  /** One point is named by the octets of a key or of R. */
  lemma NamedOnce(p: int, d: int, raw: bytes, a: Point, b: Point)
    requires Ed25519Field(p, d) && p > 2 && Names(p, d, raw, a) && Names(p, d, raw, b)
    ensures a == b
  {
    hide FromLE, Prime, OnAffineCurve, SquareOfX, Encodes;
    var sign, y := FromLE(raw) / SIGN_BIT, FromLE(raw) % SIGN_BIT;
    Halves(p, raw, a);
    Halves(p, raw, b);
    RootIsOnCurve(p, d, y, a.x);
    RootIsOnCurve(p, d, y, b.x);
    OddFromField(p, d);
    RecoveredOnce(p, SquareOfX(p, d, y), sign, a.x, b.x);
  }

  lemma OddFromField(p: int, d: int)
    requires Ed25519Field(p, d)
    ensures Prime(p) && p % 2 == 1
  {
  }

  lemma Halves(p: int, raw: bytes, a: Point)
    requires p > 0 && Encodes(p, raw, a)
    ensures a.y == FromLE(raw) % SIGN_BIT && a.x % 2 == FromLE(raw) / SIGN_BIT
    ensures 0 <= a.x < p && a.z == 1 && a.t == (a.x * a.y) % p
  {
    hide FromLE;
  }

  /** phi reads the points in (op, id) and tells apart exactly what _point_equal tells apart. */
  ghost predicate Faithful<T(!new)>(p: int, d: int, phi: Point -> T, op: (T, T) -> T, id: T)
    requires p > 0
  {
    && Monoid(op, id)
    && ReadsPoints(p, d, phi, op, id)
    && forall a, b :: Proper(p, d, a) && Proper(p, d, b) ==> (PointEqual(p, a, b) <==> phi(a) == phi(b))
  }

  /** The base point has order q: q multiples, all different, and then it starts again. */
  ghost predicate Order<T(!new)>(op: (T, T) -> T, id: T, x: T, q: nat) {
    && q > 0
    && Multiple(op, id, q, x) == id
    && forall i: nat, j: nat :: i < q && j < q && Multiple(op, id, i, x) == Multiple(op, id, j, x) ==> i == j
  }

  /** The verification equation over a key [secret]B and an R that is [nonce]B: it holds exactly
      for s = nonce + k secret modulo q, which is what an honest signer sends. */
  lemma EquationHolds<T(!new)>(p: int, d: int, phi: Point -> T, op: (T, T) -> T, id: T, q: nat, base: Point,
                               a: Point, r: Point, secret: nat, nonce: nat, s: nat, k: nat)
    requires Ed25519Field(p, d) && Faithful(p, d, phi, op, id)
    requires Proper(p, d, base) && Proper(p, d, a) && Proper(p, d, r) && Order(op, id, phi(base), q)
    requires phi(a) == Multiple(op, id, secret, phi(base)) && phi(r) == Multiple(op, id, nonce, phi(base))
    requires s < q
    ensures PointEqual(p, Times(p, d, s, base), PointAdd(p, d, r, Times(p, d, k, a)))
            <==> s == (nonce + k * secret) % q
  {
    hide Proper, PointAdd, PointEqual, Climb, Multiple, Monoid;
    var left, right := Times(p, d, s, base), Times(p, d, k, a);
    MulIsComplete(p, d, s, base);
    MulIsComplete(p, d, k, a);
    AddIsComplete(p, d, r, right);
    MulIsMultiple(p, d, phi, op, id, s, base);
    MulIsMultiple(p, d, phi, op, id, k, a);
    MultipleOfMultiple(op, id, k, secret, phi(base));
    MultipleOfSum(op, id, nonce, k * secret, phi(base));
    MultipleModulo(op, id, q, nonce + k * secret, phi(base));
    assert phi(PointAdd(p, d, r, right)) == Multiple(op, id, (nonce + k * secret) % q, phi(base));
    assert phi(left) == Multiple(op, id, s, phi(base));
  }

  /** An honest signature is accepted and a dishonest one over the same R is not: with the key
      [secret]B and R = [nonce]B, a signature is accepted exactly when its second half is
      nonce + k secret modulo q, k being the hash of R, the key and the message, in this order. */
  lemma AcceptedExactlyWhenSigned<T(!new)>(
    p: int, d: int, phi: Point -> T, op: (T, T) -> T, id: T, q: nat, base: Point, sha512: bytes -> bytes,
    public: bytes, message: bytes, signature: bytes, a: Point, r: Point, secret: nat, nonce: nat)
    requires Ed25519Field(p, d) && p > 2 && Faithful(p, d, phi, op, id)
    requires Proper(p, d, base) && Order(op, id, phi(base), q)
    requires |signature| == 64 && Names(p, d, public, a) && Names(p, d, signature[..32], r)
    requires phi(a) == Multiple(op, id, secret, phi(base)) && phi(r) == Multiple(op, id, nonce, phi(base))
    ensures
      var k := FromLE(sha512(signature[..32] + public + message)) % q;
      Signed(p, d, q, base, sha512, public, message, signature)
      <==> FromLE(signature[32..]) == (nonce + k * secret) % q
  {
    hide Proper, PointAdd, PointEqual, Climb, Multiple, Monoid, Faithful, FromLE, Encodes, OnAffineCurve, Ed25519Field;
    var k := FromLE(sha512(signature[..32] + public + message)) % q;
    var s := FromLE(signature[32..]);
    DecodedIsProper(p, d, public, a);
    DecodedIsProper(p, d, signature[..32], r);
    if s < q {
      EquationHolds(p, d, phi, op, id, q, base, a, r, secret, nonce, s, k);
    }
    if Signed(p, d, q, base, sha512, public, message, signature) {
      var a', r' :|
        && Equation(p, d, q, base, sha512, public, message, signature, a', r')
        && OnAffineCurve(p, d, a'.x, a'.y) && OnAffineCurve(p, d, r'.x, r'.y);
      NamedOnce(p, d, public, a, a');
      NamedOnce(p, d, signature[..32], r, r');
    }
    if s == (nonce + k * secret) % q {
      assert Equation(p, d, q, base, sha512, public, message, signature, a, r);
    }
  }
}
