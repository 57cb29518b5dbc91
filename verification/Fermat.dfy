/** The number theory that recovering x from y relies on: Euclid's lemma, Fermat's little
    theorem, and square roots modulo a prime. */
module Fermat {
  import opened Congruence

  /** Divisible by no number strictly between 1 and itself. */
  ghost predicate Prime(p: int) {
    p > 1 && forall k :: 1 < k < p ==> p % k != 0
  }

  /** Python's b ** e. */
  function Power(b: int, e: nat): int {
    if e == 0 then 1 else b * Power(b, e - 1)
  }

  // ------------------------------------------------------------ Euclid's lemma

  /** If p divides a b with 0 < a < p, it divides b: replace a by p mod a until a is 1. */
  lemma {:induction false} EuclidBelow(p: int, a: int, b: int)
    requires Prime(p) && 0 < a < p && Cong(p, a * b, 0)
    ensures Cong(p, b, 0)
    decreases a
  {
    if a > 1 {
      var r, q := p % a, p / a;
      assert r > 0;
      Scale(p, q, a * b, 0);
      Witness(p, p * b, 0, b);
      Plus(p, p * b, 0, q * (a * b), q * 0);
      Remainder(p, a, b, q, r);
      EuclidBelow(p, r, b);
    }
  }

  lemma Remainder(p: int, a: int, b: int, q: int, r: int)
    requires p == a * q + r
    ensures p * b - q * (a * b) == r * b
  {
    assert (a * q) * b == q * (a * b);
  }

  /** A prime that divides a product divides a factor. */
  lemma Euclid(p: int, a: int, b: int)
    requires Prime(p) && Cong(p, a * b, 0)
    ensures Cong(p, a, 0) || Cong(p, b, 0)
  {
    if !Cong(p, a, 0) {
      Reduce(p, a);
      Same(p, b);
      Times(p, a % p, a, b, b);
      Trans(p, (a % p) * b, a * b, 0);
      EuclidBelow(p, a % p, b);
    }
  }

  /** A factor that p does not divide can be cancelled. */
  lemma CancelFactor(p: int, c: int, x: int, y: int)
    requires Prime(p) && !Cong(p, c, 0) && Cong(p, c * x, c * y)
    ensures Cong(p, x, y)
  {
    assert c * x - c * y == c * (x - y);
    Euclid(p, c, x - y);
  }

  /** Two numbers with the same square agree up to sign. */
  lemma SameSquare(p: int, x: int, y: int)
    requires Prime(p) && Cong(p, x * x, y * y)
    ensures Cong(p, x, y) || Cong(p, x, -y)
  {
    assert x * x - y * y == (x - y) * (x + y);
    Euclid(p, x - y, x + y);
  }

  // ------------------------------------------------------------ binomials

  function Choose(n: nat, k: nat): nat {
    if k == 0 then 1 else if n == 0 then 0 else Choose(n - 1, k - 1) + Choose(n - 1, k)
  }

  lemma {:induction false} ChooseAbove(n: nat, k: nat)
    requires k > n
    ensures Choose(n, k) == 0
  {
    if n > 0 {
      ChooseAbove(n - 1, k - 1);
      ChooseAbove(n - 1, k);
    }
  }

  lemma {:induction false} ChooseAll(n: nat)
    ensures Choose(n, n) == 1
  {
    if n > 0 {
      ChooseAll(n - 1);
      ChooseAbove(n - 1, n);
    }
  }

  /** (k + 1) C(n + 1, k + 1) = (n + 1) C(n, k). */
  lemma {:induction false} Absorb(n: nat, k: nat)
    ensures (k + 1) * Choose(n + 1, k + 1) == (n + 1) * Choose(n, k)
  {
    if n == 0 {
      if k > 0 {
        ChooseAbove(0, k);
        ChooseAbove(1, k + 1);
      }
    } else if k > 0 {
      Absorb(n - 1, k);
      Absorb(n - 1, k - 1);
      AbsorbStep(n, k, Choose(n - 1, k - 1), Choose(n - 1, k), Choose(n, k + 1));
    } else {
      Absorb(n - 1, 0);
    }
  }

  lemma AbsorbStep(n: nat, k: nat, x: int, y: int, z: int)
    requires (k + 1) * z == n * y && k * (x + y) == n * x
    ensures (k + 1) * ((x + y) + z) == (n + 1) * (x + y)
  {
    assert (k + 1) * ((x + y) + z) == k * (x + y) + (x + y) + (k + 1) * z;
    assert n * x + n * y == n * (x + y);
  }

  /** A prime divides its inner binomials. */
  lemma PrimeDividesChoose(p: int, k: int)
    requires Prime(p) && 0 < k < p
    ensures Cong(p, Choose(p, k), 0)
  {
    hide Choose, Cong;
    var c, e := Choose(p, k), Choose(p - 1, k - 1);
    Absorb(p - 1, k - 1);
    assert k * c == p * e;
    assert k * c - 0 == e * p;
    Witness(p, k * c, 0, e);
    EuclidBelow(p, k, c);
  }

  /** The first m terms of the expansion of (a + 1)^n. */
  function Terms(n: nat, a: int, m: nat): int {
    if m == 0 then 0 else Terms(n, a, m - 1) + Choose(n, m - 1) * Power(a, m - 1)
  }

  lemma {:induction false} TermsStep(n: nat, a: int, m: nat)
    ensures Terms(n + 1, a, m + 1) == Terms(n, a, m + 1) + a * Terms(n, a, m)
  {
    if m > 0 {
      TermsStep(n, a, m - 1);
      var c, d, w := Choose(n, m - 1), Choose(n, m), Power(a, m - 1);
      assert Choose(n + 1, m) == c + d;
      Pascal(c, d, a, w, Terms(n, a, m - 1));
    }
  }

  lemma Pascal(c: int, d: int, a: int, w: int, t: int)
    ensures (c + d) * (a * w) == d * (a * w) + a * (c * w)
    ensures a * (t + c * w) == a * t + a * (c * w)
  {
    assert c * (a * w) == a * (c * w);
  }

  lemma LastTermIsZero(n: nat, a: int)
    ensures Terms(n, a, n + 2) == Terms(n, a, n + 1)
  {
    ChooseAbove(n, n + 1);
    assert Choose(n, n + 1) * Power(a, n + 1) == 0;
  }

  /** Adding up all the terms. */
  lemma {:induction false} Binomial(n: nat, a: int)
    ensures Power(a + 1, n) == Terms(n, a, n + 1)
  {
    if n > 0 {
      Binomial(n - 1, a);
      TermsStep(n - 1, a, n);
      LastTermIsZero(n - 1, a);
      var t := Terms(n - 1, a, n);
      assert (a + 1) * t == t + a * t;
    } else {
      assert Terms(0, a, 1) == Terms(0, a, 0) + Choose(0, 0) * Power(a, 0);
    }
  }

  lemma {:induction false} InnerTermsVanish(p: int, a: int, m: int)
    requires Prime(p) && 0 < m <= p
    ensures Cong(p, Terms(p, a, m), 1)
    decreases m
  {
    if m == 1 {
      assert Terms(p, a, 1) == Terms(p, a, 0) + Choose(p, 0) * Power(a, 0);
      Same(p, 1);
    } else {
      InnerTermsVanish(p, a, m - 1);
      PrimeDividesChoose(p, m - 1);
      var w := Power(a, m - 1);
      Scale(p, w, Choose(p, m - 1), 0);
      assert w * Choose(p, m - 1) == Choose(p, m - 1) * w;
      Plus(p, Terms(p, a, m - 1), 1, Choose(p, m - 1) * w, w * 0);
    }
  }

  // ------------------------------------------------------------ Fermat's little theorem

  lemma PrimePositive(p: int)
    requires Prime(p)
    ensures p > 1
  {
  }

  /** (a + 1)^p is a^p + 1. */
  lemma FreshmansDream(p: int, a: int)
    requires Prime(p)
    ensures Cong(p, Power(a + 1, p), Power(a, p) + 1)
  {
    hide Cong, Prime, Power, Choose;
    PrimePositive(p);
    Binomial(p, a);
    InnerTermsVanish(p, a, p);
    ChooseAll(p);
    var w := Power(a, p);
    assert Terms(p, a, p + 1) == Terms(p, a, p) + Choose(p, p) * w;
    Same(p, w);
    Plus(p, Terms(p, a, p), 1, w, w);
  }

  lemma {:induction false} PowerOfPrime(p: int, a: nat)
    requires Prime(p)
    ensures Cong(p, Power(a, p), a)
  {
    if a == 0 {
      assert Power(0, p) == 0;
      Same(p, 0);
    } else {
      PowerOfPrime(p, a - 1);
      FreshmansDream(p, a - 1);
      Same(p, 1);
      Plus(p, Power(a - 1, p), a - 1, 1, 1);
      Trans(p, Power(a, p), Power(a - 1, p) + 1, a);
    }
  }

  lemma {:induction false} PowerCong(p: int, x: int, y: int, e: nat)
    requires p > 0 && Cong(p, x, y)
    ensures Cong(p, Power(x, e), Power(y, e))
  {
    if e == 0 {
      Same(p, 1);
    } else {
      PowerCong(p, x, y, e - 1);
      Times(p, x, y, Power(x, e - 1), Power(y, e - 1));
    }
  }

  /** a^p is a, for negative a too. */
  lemma PowerAtPrime(p: int, a: int)
    requires Prime(p)
    ensures Cong(p, Power(a, p), a)
  {
    hide Cong, Power;
    var r := a % p;
    PowerOfPrime(p, r);
    Reduce(p, a);
    Sym(p, r, a);
    PowerCong(p, a, r, p);
    Trans(p, Power(a, p), Power(r, p), r);
    Trans(p, Power(a, p), r, a);
  }

  /** a^(p-1) is 1 for every a that p does not divide. */
  lemma LittleTheorem(p: int, a: int)
    requires Prime(p) && !Cong(p, a, 0)
    ensures Cong(p, Power(a, p - 1), 1)
  {
    hide Cong, Prime;
    PrimePositive(p);
    PowerAtPrime(p, a);
    assert Power(a, p) == a * Power(a, p - 1);
    CancelFactor(p, a, Power(a, p - 1), 1);
  }

  lemma {:induction false} PowerSum(b: int, e: nat, f: nat)
    ensures Power(b, e + f) == Power(b, e) * Power(b, f)
  {
    if e > 0 {
      PowerSum(b, e - 1, f);
      Associate(b, Power(b, e - 1), Power(b, f));
    }
  }

  lemma Associate(a: int, b: int, c: int)
    ensures a * (b * c) == (a * b) * c
  {
  }

  lemma {:induction false} PowerOfSquare(b: int, e: nat)
    ensures Power(b * b, e) == Power(b, 2 * e)
  {
    if e > 0 {
      PowerOfSquare(b, e - 1);
      Associate(b, b, Power(b, 2 * e - 2));
      assert Power(b, 2 * e) == b * (b * Power(b, 2 * e - 2));
    }
  }

  // ------------------------------------------------------------ the root of -1

  /** SQRT_M1: 2 to the power (p - 1) / 4. */
  function SqrtM1(p: int): (r: int)
    requires p > 0
    ensures 0 <= r < p
  {
    Power(2, (p - 1) / 4) % p
  }

  function Factorial(n: nat): nat {
    if n == 0 then 1 else n * Factorial(n - 1)
  }

  /** 2 * 4 * ... * 2n. */
  function Evens(n: nat): int {
    if n == 0 then 1 else 2 * n * Evens(n - 1)
  }

  /** 1 * 3 * ... * (2n - 1). */
  function Odds(n: nat): int {
    if n == 0 then 1 else (2 * n - 1) * Odds(n - 1)
  }

  /** The i largest factors of Evens(2m), from 4m down. */
  function TopEvens(m: nat, i: nat): int
    requires i <= 2 * m
  {
    if i == 0 then 1 else 2 * (2 * m + 1 - i) * TopEvens(m, i - 1)
  }

  lemma {:induction false} EvensArePowers(n: nat)
    ensures Evens(n) == Power(2, n) * Factorial(n)
  {
    if n > 0 {
      EvensArePowers(n - 1);
      Rearrange(2, n, Power(2, n - 1), Factorial(n - 1));
    }
  }

  lemma Rearrange(a: int, b: int, c: int, d: int)
    ensures a * b * (c * d) == (a * c) * (b * d)
  {
    assert b * (c * d) == c * (b * d);
  }

  lemma {:induction false} EvensAndOdds(m: nat)
    ensures Evens(m) * Odds(m) == Factorial(2 * m)
  {
    if m > 0 {
      EvensAndOdds(m - 1);
      var e, o := Evens(m - 1), Odds(m - 1);
      Rearrange(2 * m, 2 * m - 1, e, o);
      assert Factorial(2 * m) == 2 * m * ((2 * m - 1) * Factorial(2 * m - 2));
      Associate(2 * m, 2 * m - 1, e * o);
    }
  }

  lemma {:induction false} EvensSplit(m: nat, i: nat)
    requires i <= 2 * m
    ensures Evens(2 * m) == Evens(2 * m - i) * TopEvens(m, i)
  {
    if i > 0 {
      EvensSplit(m, i - 1);
      var n := 2 * m - i;
      Associate(Evens(n), 2 * (n + 1), TopEvens(m, i - 1));
      assert Evens(n + 1) == Evens(n) * (2 * (n + 1));
    }
  }

  /** Counted down from p - 1, the even numbers are minus the odd ones. */
  lemma {:induction false} TopEvensAreOdds(p: int, m: nat, i: nat)
    requires p == 4 * m + 1 && i <= 2 * m
    ensures Cong(p, TopEvens(m, i), if i % 2 == 0 then Odds(i) else -Odds(i))
  {
    hide Cong;
    if i == 0 {
      Same(p, 1);
    } else {
      TopEvensAreOdds(p, m, i - 1);
      OneMoreTopEven(p, m, i);
    }
  }

  lemma OneMoreTopEven(p: int, m: nat, i: nat)
    requires p == 4 * m + 1 && 0 < i <= 2 * m
    requires Cong(p, TopEvens(m, i - 1), if (i - 1) % 2 == 0 then Odds(i - 1) else -Odds(i - 1))
    ensures Cong(p, TopEvens(m, i), if i % 2 == 0 then Odds(i) else -Odds(i))
  {
    hide Cong;
    Reflect(p, 2 * (2 * m + 1 - i), 2 * i - 1, TopEvens(m, i - 1), Odds(i - 1));
  }

  lemma Reflect(p: int, a: int, b: int, t: int, o: int)
    requires p > 0 && a + b == p
    ensures Cong(p, t, o) ==> Cong(p, a * t, -(b * o))
    ensures Cong(p, t, -o) ==> Cong(p, a * t, b * o)
  {
    hide Cong;
    assert a - -b == 1 * p;
    Witness(p, a, -b, 1);
    Negate(b, o);
    if Cong(p, t, o) {
      Times(p, a, -b, t, o);
    }
    if Cong(p, t, -o) {
      Times(p, a, -b, t, -o);
    }
  }

  lemma Negate(a: int, b: int)
    ensures -a * b == -(a * b) && -a * -b == a * b
  {
  }

  lemma {:induction false} FactorialNonzero(p: int, n: int)
    requires Prime(p) && 0 <= n < p
    ensures !Cong(p, Factorial(n), 0)
    decreases n
  {
    if n == 0 {
      SmallResidue(p, 1);
    } else {
      FactorialNonzero(p, n - 1);
      SmallResidue(p, n);
      if Cong(p, Factorial(n), 0) {
        Euclid(p, n, Factorial(n - 1));
      }
    }
  }

  lemma SmallResidue(p: int, n: int)
    requires 0 < n < p
    ensures !Cong(p, n, 0)
  {
  }

  /** 2 is no square modulo a prime that is 5 modulo 8: its power (p - 1) / 2 is -1. */
  lemma TwoToTheHalf(p: int, m: nat)
    requires Prime(p) && p == 4 * m + 1 && m % 2 == 1
    ensures Cong(p, Power(2, 2 * m), -1)
  {
    hide Prime, Cong, Power, Factorial, Evens, Odds, TopEvens;
    var w, f, e, o, t := Power(2, 2 * m), Factorial(2 * m), Evens(m), Odds(m), TopEvens(m, m);
    EvensArePowers(2 * m);
    EvensSplit(m, m);
    EvensAndOdds(m);
    TopEvensAreOdds(p, m, m);
    Scale(p, e, t, -o);
    Negate(o, e);
    assert w * f == e * t && e * -o == -f && f * -1 == -f && w * f == f * w;
    FactorialNonzero(p, 2 * m);
    CancelFactor(p, f, w, -1);
  }

  /** SQRT_M1 is a square root of -1. */
  lemma RootOfMinusOne(p: int)
    requires Prime(p) && p % 8 == 5
    ensures Cong(p, SqrtM1(p) * SqrtM1(p), -1)
  {
    var k := (p - 5) / 8;
    RootAt(p, 2 * k + 1);
  }

  lemma RootAt(p: int, m: nat)
    requires Prime(p) && p == 4 * m + 1 && m % 2 == 1
    ensures Cong(p, SqrtM1(p) * SqrtM1(p), -1)
  {
    hide Cong, Power, Prime;
    assert (p - 1) / 4 == m;
    TwoToTheHalf(p, m);
    PowerSum(2, m, m);
    Reduce(p, Power(2, m));
    Square(p, SqrtM1(p), Power(2, m));
    Trans(p, SqrtM1(p) * SqrtM1(p), Power(2, 2 * m), -1);
  }
}
