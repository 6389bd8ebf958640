/** Prime numbers. */
module Primes {
  import opened Integers
  import opened Sets

  ghost predicate IsPrime(p: int) {
    p >= 2 && forall d :: 2 <= d < p ==> p % d != 0
  }

  /** A prime divides a product only if it divides a factor. */
  lemma EuclidsLemma(p: int, x: int, y: int)
    requires IsPrime(p) && (x * y) % p == 0 && x % p != 0
    ensures y % p == 0
  {
    var u, v := PrimeBezout(p, x);
    DividesMultiple(p, u * y, p) by { DivIntro(p, p, 1); }
    DividesMultiple(x * y, v, p);
    DividesSum(p * (u * y), (x * y) * v, p);
    assert (p * u + x * v) * y == p * (u * y) + (x * y) * v;
  }

  /** A number not divisible by a prime is coprime to it. */
  lemma PrimeBezout(p: int, x: int) returns (u: int, v: int)
    requires IsPrime(p) && x % p != 0
    ensures p * u + x * v == 1
  {
    var g := AllInputValueGCD(p, x);
    u, v := GcdBezout(p, x);
    if g >= p {
      DividesUpTo(p, g);
      assert false;
    }
    if g > 1 {
      assert false;
    }
  }

  lemma DividesUpTo(p: int, g: int)
    requires p > 0 && g >= p && p % g == 0
    ensures g == p
  {
    if g > p {
      QuotientUnique(p, g, 0);
      assert false;
    }
  }

  // ----- Fermat's little theorem -----

  function Exp(a: int, n: nat): int {
    if n == 0 then 1 else Exp(a, n - 1) * a
  }

  /** The product of a finite set of numbers. */
  ghost function Product(s: set<int>): int {
    if s == {} then 1 else Pick(s) * Product(s - {Pick(s)})
  }

  lemma {:induction false} ProductRemove(s: set<int>, y: int)
    requires y in s
    ensures Product(s) == y * Product(s - {y})
    decreases |s|
  {
    var x := Pick(s);
    if x != y {
      ProductRemove(s - {x}, y);
      ProductRemove(s - {y}, x);
      assert s - {x} - {y} == s - {y} - {x};
      ThreeFactors(x, y, Product(s - {x} - {y}));
    }
  }

  lemma ProductEmpty()
    ensures Product({}) == 1
  {
  }

  lemma ThreeFactors(x: int, y: int, z: int)
    ensures x * (y * z) == y * (x * z)
  {
  }

  lemma ProductInsert(s: set<int>, y: int)
    requires y !in s
    ensures Product(s + {y}) == y * Product(s)
  {
    ProductRemove(s + {y}, y);
    assert s + {y} - {y} == s;
  }

  ghost function UpTo(n: nat): (s: set<int>)
    ensures forall x :: x in s <==> 1 <= x <= n
  {
    if n == 0 then {} else UpTo(n - 1) + {n}
  }

  /** The residues of a, 2a, ..., na modulo p. */
  ghost function Multiples(a: int, p: int, n: nat): set<int>
    requires p > 0
  {
    if n == 0 then {} else Multiples(a, p, n - 1) + {(a * n) % p}
  }

  lemma {:induction false} MultiplesOrigin(a: int, p: int, n: nat, y: int) returns (x: nat)
    requires p > 0 && y in Multiples(a, p, n)
    ensures 1 <= x <= n && (a * x) % p == y
  {
    if y == (a * n) % p {
      x := n;
    } else {
      x := MultiplesOrigin(a, p, n - 1, y);
    }
  }

  lemma MultiplesDistinct(p: int, a: int, x: int, y: int)
    requires IsPrime(p) && a % p != 0 && 0 < x < p && 0 < y < p && (a * x) % p == (a * y) % p
    ensures x == y
  {
    SameRemainder(a * x, a * y, p);
    assert a * x - a * y == a * (x - y);
    EuclidsLemma(p, a, x - y);
    SmallMultipleOf(x - y, p);
  }

  lemma SameRemainder(x: int, y: int, p: int)
    requires p > 0 && x % p == y % p
    ensures (x - y) % p == 0
  {
    assert p * (x / p) - p * (y / p) == p * (x / p - y / p);
    DivIntro(x - y, p, x / p - y / p);
  }

  lemma SmallMultipleOf(e: int, p: int)
    requires p > 0 && -p < e < p && e % p == 0
    ensures e == 0
  {
    SmallMultiple(p, e / p);
  }

  lemma NonzeroMultiple(p: int, a: int, x: int)
    requires IsPrime(p) && a % p != 0 && 0 < x < p
    ensures 1 <= (a * x) % p < p
  {
    if (a * x) % p == 0 {
      EuclidsLemma(p, a, x);
      assert false;
    }
  }

  lemma {:induction false} MultiplesSize(p: int, a: int, n: nat)
    requires IsPrime(p) && a % p != 0 && n < p
    ensures |Multiples(a, p, n)| == n && Multiples(a, p, n) <= UpTo(p - 1)
  {
    if n > 0 {
      MultiplesSize(p, a, n - 1);
      MultiplesStep(p, a, n);
      NonzeroMultiple(p, a, n);
    }
  }

  lemma MultiplesStep(p: int, a: int, n: nat)
    requires IsPrime(p) && a % p != 0 && 0 < n < p
    ensures (a * n) % p !in Multiples(a, p, n - 1)
  {
    if (a * n) % p in Multiples(a, p, n - 1) {
      var x := MultiplesOrigin(a, p, n - 1, (a * n) % p);
      MultiplesDistinct(p, a, x, n);
      assert false;
    }
  }

  lemma {:induction false} UpToSize(n: nat)
    ensures |UpTo(n)| == n
  {
    if n > 0 {
      UpToSize(n - 1);
    }
  }

  lemma ExpStep(a: int, n: nat)
    requires n > 0
    ensures Exp(a, n) == Exp(a, n - 1) * a
  {
  }

  lemma ProductJoin(p: int, a: int, n: int, M: int, E: int, U: int)
    requires p > 0 && (M - E * U) % p == 0
    ensures ((a * n) % p * M - (E * a) * (n * U)) % p == 0
  {
    ProductStep(p, a * n, M, E, U);
    FourFactors(E, a, n, U);
  }

  lemma MultiplesProductStart(p: int, a: int)
    requires p > 0
    ensures (Product(Multiples(a, p, 0)) - Exp(a, 0) * Product(UpTo(0))) % p == 0
  {
    ProductEmpty();
    assert Multiples(a, p, 0) == {} && UpTo(0) == {};
  }

  lemma MultiplesAdd(a: int, p: int, n: nat)
    requires p > 0 && n > 0
    ensures Multiples(a, p, n) == Multiples(a, p, n - 1) + {(a * n) % p}
  {
  }

  lemma MultiplesProductStep(p: int, a: int, n: nat)
    requires IsPrime(p) && a % p != 0 && 0 < n < p
    requires (Product(Multiples(a, p, n - 1)) - Exp(a, n - 1) * Product(UpTo(n - 1))) % p == 0
    ensures (Product(Multiples(a, p, n)) - Exp(a, n) * Product(UpTo(n))) % p == 0
  {
    hide IsPrime, Product, Multiples, UpTo, Exp;
    MultiplesStep(p, a, n);
    MultiplesAdd(a, p, n);
    ProductInsert(Multiples(a, p, n - 1), (a * n) % p);
    FactorialStep(n);
    ExpStep(a, n);
    ProductJoin(p, a, n, Product(Multiples(a, p, n - 1)), Exp(a, n - 1), Product(UpTo(n - 1)));
  }

  lemma {:induction false} MultiplesProduct(p: int, a: int, n: nat)
    requires IsPrime(p) && a % p != 0 && n < p
    ensures (Product(Multiples(a, p, n)) - Exp(a, n) * Product(UpTo(n))) % p == 0
  {
    hide IsPrime, Product, Multiples, UpTo, Exp;
    if n > 0 {
      MultiplesProduct(p, a, n - 1);
      MultiplesProductStep(p, a, n);
    } else {
      MultiplesProductStart(p, a);
    }
  }

  lemma FactorialStep(n: nat)
    requires n > 0
    ensures Product(UpTo(n)) == n * Product(UpTo(n - 1))
  {
    ProductInsert(UpTo(n - 1), n);
  }

  lemma FourFactors(E: int, a: int, n: int, U: int)
    ensures (E * a) * (n * U) == (a * n) * (E * U)
  {
  }

  lemma ProductStep(p: int, y: int, M: int, E: int, U: int)
    requires p > 0 && (M - E * U) % p == 0
    ensures ((y % p) * M - y * (E * U)) % p == 0
  {
    var q := y / p;
    assert y == p * q + y % p;
    DividesMultiple(M - E * U, y, p);
    assert (M - E * U) * y == y * M - y * (E * U);
    DivIntro(p * (q * M), p, q * M);
    DividesSum((M - E * U) * y, p * (q * M), p);
    assert (y % p) * M == y * M - p * (q * M) by {
      assert (p * q + y % p) * M == p * (q * M) + (y % p) * M;
    }
  }

  lemma {:induction false} ProductCoprime(p: int, n: nat)
    requires IsPrime(p) && n < p
    ensures Product(UpTo(n)) % p != 0
  {
    hide Product;
    ProductEmpty();
    if n > 0 {
      ProductCoprime(p, n - 1);
      FactorialStep(n);
      CoprimeProduct(p, n, Product(UpTo(n - 1)));
    }
  }

  lemma CoprimeProduct(p: int, n: int, U: int)
    requires IsPrime(p) && 0 < n < p && U % p != 0
    ensures (n * U) % p != 0
  {
    if (n * U) % p == 0 {
      EuclidsLemma(p, n, U);
      assert false;
    }
  }

  /** Fermat's little theorem. */
  lemma Fermat(p: int, a: int)
    requires IsPrime(p) && a % p != 0
    ensures (Exp(a, p - 1) - 1) % p == 0
  {
    var n: nat := p - 1;
    hide IsPrime, Product, Exp, Multiples, UpTo;
    FactorialOfMultiples(p, a, n);
    MultiplesProduct(p, a, n);
    ProductCoprime(p, n);
    CancelProduct(p, Product(UpTo(n)), Exp(a, n));
  }

  lemma FactorialOfMultiples(p: int, a: int, n: nat)
    requires IsPrime(p) && a % p != 0 && n == p - 1
    ensures Multiples(a, p, n) == UpTo(n)
  {
    hide IsPrime, Multiples, UpTo;
    MultiplesSize(p, a, n);
    UpToSize(n);
    SubsetOfSameSize(Multiples(a, p, n), UpTo(n));
  }

  lemma CancelProduct(p: int, P: int, E: int)
    requires IsPrime(p) && P % p != 0 && (P - E * P) % p == 0
    ensures (E - 1) % p == 0
  {
    assert P - E * P == P * (1 - E);
    EuclidsLemma(p, P, 1 - E);
    DividesMultiple(1 - E, -1, p);
  }

  /** a^(p-2) is the inverse of a modulo a prime p. */
  lemma InverseByFermat(p: int, a: int, q: int)
    requires IsPrime(p) && a % p != 0 && q == Exp(a, p - 2) % p
    ensures (a * q - 1) % p == 0
  {
    Fermat(p, a);
    ReducedInverse(p, a, Exp(a, p - 2));
  }

  lemma ReducedInverse(p: int, a: int, E: int)
    requires p > 0 && (E * a - 1) % p == 0
    ensures (a * (E % p) - 1) % p == 0
  {
    ReduceFactor(p, a, E, E / p, E % p);
    DivIntro(p * ((E / p) * a), p, (E / p) * a);
    DividesSum(E * a - 1, p * ((E / p) * a), p);
  }

  lemma ReduceFactor(p: int, a: int, E: int, k: int, r: int)
    requires E == p * k + r
    ensures a * r - 1 == (E * a - 1) - p * (k * a)
  {
    assert (p * k + r) * a == p * (k * a) + r * a;
  }
}
