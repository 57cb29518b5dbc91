/** Double-and-add over an arbitrary operation: the loop shape of _point_mul in
    ci/verify_vectors.py, and what it computes. */
module Ladder {

  /** x combined with itself k times, one at a time. */
  function Multiple<T>(op: (T, T) -> T, id: T, k: nat, x: T): T {
    if k == 0 then id else op(x, Multiple(op, id, k - 1, x))
  }

  ghost predicate Monoid<T(!new)>(op: (T, T) -> T, id: T) {
    && (forall x :: op(id, x) == x)
    && (forall x :: op(x, id) == x)
    && (forall x, y, z :: op(op(x, y), z) == op(x, op(y, z)))
  }

  /** What the loop leaves in acc: test the low bit, double the point, halve the scalar. */
  function Climb<T>(op: (T, T) -> T, acc: T, k: nat, x: T): T
    decreases k
  {
    if k == 0 then acc
    else Climb(op, if k % 2 == 1 then op(acc, x) else acc, k / 2, op(x, x))
  }

  lemma {:induction false} MultipleOfSum<T(!new)>(op: (T, T) -> T, id: T, j: nat, k: nat, x: T)
    requires Monoid(op, id)
    ensures Multiple(op, id, j + k, x) == op(Multiple(op, id, j, x), Multiple(op, id, k, x))
  {
    if j > 0 {
      MultipleOfSum(op, id, j - 1, k, x);
    }
  }

  lemma {:induction false} MultipleOfDouble<T(!new)>(op: (T, T) -> T, id: T, k: nat, x: T)
    requires Monoid(op, id)
    ensures Multiple(op, id, k, op(x, x)) == Multiple(op, id, 2 * k, x)
  {
    if k > 0 {
      MultipleOfDouble(op, id, k - 1, x);
      assert Multiple(op, id, 2 * k, x) == op(x, op(x, Multiple(op, id, 2 * k - 2, x)));
    }
  }

  /** on is closed under add, and there phi turns add into op. */
  ghost predicate Reads<S(!new), T>(add: (S, S) -> S, on: S -> bool, phi: S -> T, op: (T, T) -> T) {
    forall a, b :: on(a) && on(b) ==> on(add(a, b)) && phi(add(a, b)) == op(phi(a), phi(b))
  }

  lemma ReadsAt<S(!new), T>(add: (S, S) -> S, on: S -> bool, phi: S -> T, op: (T, T) -> T, a: S, b: S)
    requires Reads(add, on, phi, op) && on(a) && on(b)
    ensures on(add(a, b)) && phi(add(a, b)) == op(phi(a), phi(b))
  {
  }

  /** One turn of the loop keeps acc + k x. */
  lemma Turn<T(!new)>(op: (T, T) -> T, id: T, acc: T, k: nat, x: T)
    requires Monoid(op, id) && k > 0
    ensures op(if k % 2 == 1 then op(acc, x) else acc, Multiple(op, id, k / 2, op(x, x)))
            == op(acc, Multiple(op, id, k, x))
  {
    MultipleOfDouble(op, id, k / 2, x);
    if k % 2 == 1 {
      assert 2 * (k / 2) == k - 1;
      assert Multiple(op, id, k, x) == op(x, Multiple(op, id, k - 1, x));
    } else {
      assert 2 * (k / 2) == k;
    }
  }

  /** For every reading phi of the points under which add becomes an associative operation with
      identity, the loop computes a scalar multiple: acc + k x is the loop invariant. Nothing is
      asked of add itself. */
  lemma {:induction false} ClimbIsMultiple<S(!new), T(!new)>(
    add: (S, S) -> S, on: S -> bool, phi: S -> T, op: (T, T) -> T, id: T, acc: S, k: nat, x: S)
    requires Monoid(op, id) && Reads(add, on, phi, op) && on(acc) && on(x)
    ensures on(Climb(add, acc, k, x))
    ensures phi(Climb(add, acc, k, x)) == op(phi(acc), Multiple(op, id, k, phi(x)))
    decreases k
  {
    hide Monoid, Reads, Multiple;
    if k == 0 {
      NoTurn(op, id, phi(acc), phi(x));
    } else {
      ReadsAt(add, on, phi, op, x, x);
      ReadsAt(add, on, phi, op, acc, x);
      var acc' := if k % 2 == 1 then add(acc, x) else acc;
      ClimbIsMultiple(add, on, phi, op, id, acc', k / 2, add(x, x));
      Turn(op, id, phi(acc), k, phi(x));
    }
  }

  lemma NoTurn<T(!new)>(op: (T, T) -> T, id: T, acc: T, x: T)
    requires Monoid(op, id)
    ensures op(acc, Multiple(op, id, 0, x)) == acc
  {
  }

  /** The plain case: add is itself associative. */
  lemma ClimbFromIdentity<T(!new)>(op: (T, T) -> T, id: T, k: nat, x: T)
    requires Monoid(op, id)
    ensures Climb(op, id, k, x) == Multiple(op, id, k, x)
  {
    ClimbIsMultiple(op, (y: T) => true, (y: T) => y, op, id, id, k, x);
  }

  /** A property that add preserves survives the whole loop. */
  lemma {:induction false} ClimbKeeps<S(!new)>(add: (S, S) -> S, on: S -> bool, acc: S, k: nat, x: S)
    requires forall a, b :: on(a) && on(b) ==> on(add(a, b))
    requires on(acc) && on(x)
    ensures on(Climb(add, acc, k, x))
    decreases k
  {
    if k > 0 {
      ClimbKeeps(add, on, if k % 2 == 1 then add(acc, x) else acc, k / 2, add(x, x));
    }
  }

  lemma IdentityIsLeft<T(!new)>(op: (T, T) -> T, id: T, x: T)
    requires Monoid(op, id)
    ensures op(id, x) == x
  {
  }

  lemma OneMore<T>(op: (T, T) -> T, id: T, k: nat, x: T)
    ensures Multiple(op, id, 0, x) == id
    ensures Multiple(op, id, k + 1, x) == op(x, Multiple(op, id, k, x))
  {
  }

  /** k times j times x is k j times x. */
  lemma {:induction false} MultipleOfMultiple<T(!new)>(op: (T, T) -> T, id: T, k: nat, j: nat, x: T)
    requires Monoid(op, id)
    ensures Multiple(op, id, k, Multiple(op, id, j, x)) == Multiple(op, id, k * j, x)
  {
    hide Monoid, Multiple;
    var y := Multiple(op, id, j, x);
    if k == 0 {
      OneMore(op, id, 0, y);
      OneMore(op, id, 0, x);
      assert k * j == 0;
    } else {
      MultipleOfMultiple(op, id, k - 1, j, x);
      OneMore(op, id, k - 1, y);
      assert k * j == j + (k - 1) * j;
      MultipleOfSum(op, id, j, (k - 1) * j, x);
    }
  }

  lemma {:induction false} MultipleOfIdentity<T(!new)>(op: (T, T) -> T, id: T, k: nat)
    requires Monoid(op, id)
    ensures Multiple(op, id, k, id) == id
  {
    if k > 0 {
      MultipleOfIdentity(op, id, k - 1);
    }
  }

  /** Where q times x is the identity, multiples of x depend on the scalar modulo q only. */
  lemma MultipleModulo<T(!new)>(op: (T, T) -> T, id: T, q: nat, n: nat, x: T)
    requires Monoid(op, id) && q > 0 && Multiple(op, id, q, x) == id
    ensures Multiple(op, id, n, x) == Multiple(op, id, n % q, x)
  {
    hide Monoid, Multiple;
    var k, r := n / q, n % q;
    assert n == k * q + r;
    MultipleOfMultiple(op, id, k, q, x);
    MultipleOfIdentity(op, id, k);
    MultipleOfSum(op, id, k * q, r, x);
    IdentityIsLeft(op, id, Multiple(op, id, r, x));
  }
}
