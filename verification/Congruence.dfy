/** The extended Euclidean algorithm and linear congruences. */
module Congruence {
  import opened Integers

  /** x is a solution of a*x = b modulo m. */
  predicate Solves(a: int, b: int, m: int, x: int)
    requires m > 0
  {
    (a * x - b) % m == 0
  }

  predicate Congruent(x: int, y: int, m: int)
    requires m > 0
  {
    (x - y) % m == 0
  }

  /** What solveMod returns: a solution s and the period t of the solution set. */
  datatype Solution = Unsolvable | Solvable(s: int, t: int)

  /** The loop invariant of extendedGCD: both remainders are combinations of a and b, and the matrix of
      coefficients has determinant one or minus one. */
  ghost predicate Combinations(a: int, b: int, r0: int, r1: int, s0: int, s1: int, t0: int, t1: int) {
    && r0 == a * s0 + b * t0 && r1 == a * s1 + b * t1
    && (s0 * t1 - s1 * t0 == 1 || s0 * t1 - s1 * t0 == -1)
  }

  /** The source's extendedGCD. Its result r is a common divisor of a and b and an integer combination
      of them, hence the greatest common divisor. */
  method ExtendedGCD(a: int, b: int) returns (r: int, s: int, t: int)
    ensures r == a * s + b * t
    ensures a > 0 || b > 0 ==> r > 0 && a % r == 0 && b % r == 0
  {
    hide Combinations;
    var r0, r1 := a, b;
    var s0, s1 := 1, 0;
    var t0, t1 := 0, 1;
    if r0 > r1 {
      r0, r1 := r1, r0;
      var oldS0, oldS1 := s0, s1;
      s0 := t0;
      s1 := t1;
      t0 := oldS0;
      t1 := oldS1;
    }
    CombinationStart(a, b);
    ghost var first := true;
    while r1 > 0
      invariant if first then r1 >= a && r1 >= b else r0 > 0 && r1 >= 0
      invariant Combinations(a, b, r0, r1, s0, s1, t0, t1)
      decreases r1
    {
      first := false;
      var q, r' := r0 / r1, r0 % r1;
      CombinationStep(a, b, r0, r1, s0, s1, t0, t1, q, r');
      r0 := r1;
      r1 := r';
      var oldS0, oldT0 := s0, t0;
      s0 := s1;
      s1 := oldS0 - q * s1;
      t0 := t1;
      t1 := oldT0 - q * t1;
    }
    CombinationEnd(a, b, r0, r1, s0, s1, t0, t1);
    return r0, s0, t0;
  }

  lemma CombinationStart(a: int, b: int)
    ensures Combinations(a, b, a, b, 1, 0, 0, 1) && Combinations(a, b, b, a, 0, 1, 1, 0)
  {
  }

  lemma QuotientRemainder(x: int, y: int, q: int, r: int)
    requires y > 0 && q == x / y && r == x % y
    ensures x == y * q + r && 0 <= r < y
  {
  }

  lemma CombinationStep(a: int, b: int, r0: int, r1: int, s0: int, s1: int, t0: int, t1: int, q: int, r': int)
    requires Combinations(a, b, r0, r1, s0, s1, t0, t1) && r1 > 0 && q == r0 / r1 && r' == r0 % r1
    ensures Combinations(a, b, r1, r', s1, s0 - q * s1, t1, t0 - q * t1) && 0 <= r' < r1
  {
    QuotientRemainder(r0, r1, q, r');
    RemainderCombination(a, b, s0, s1, t0, t1, q);
    DeterminantStep(s0, s1, t0, t1, q);
    assert r' == r0 - r1 * q;
  }

  lemma RemainderCombination(a: int, b: int, s0: int, s1: int, t0: int, t1: int, q: int)
    ensures a * (s0 - q * s1) + b * (t0 - q * t1) == (a * s0 + b * t0) - (a * s1 + b * t1) * q
  {
    assert a * (s0 - q * s1) == a * s0 - (a * s1) * q;
    assert b * (t0 - q * t1) == b * t0 - (b * t1) * q;
    assert (a * s1 + b * t1) * q == (a * s1) * q + (b * t1) * q;
  }

  lemma DeterminantStep(s0: int, s1: int, t0: int, t1: int, q: int)
    ensures s1 * (t0 - q * t1) - (s0 - q * s1) * t1 == -(s0 * t1 - s1 * t0)
  {
    assert s1 * (t0 - q * t1) == s1 * t0 - q * s1 * t1;
    assert (s0 - q * s1) * t1 == s0 * t1 - q * s1 * t1;
  }

  lemma CombinationEnd(a: int, b: int, r0: int, r1: int, s0: int, s1: int, t0: int, t1: int)
    requires Combinations(a, b, r0, r1, s0, s1, t0, t1)
    ensures r0 == a * s0 + b * t0
    ensures r0 > 0 && r1 == 0 ==> a % r0 == 0 && b % r0 == 0
  {
    if r0 > 0 && r1 == 0 {
      ArgumentsFromRemainders(a, b, r0, s0, s1, t0, t1);
    }
  }

  /** When the second remainder is zero, the first divides both arguments. */
  lemma ArgumentsFromRemainders(a: int, b: int, r0: int, s0: int, s1: int, t0: int, t1: int)
    requires r0 > 0 && r0 == a * s0 + b * t0 && 0 == a * s1 + b * t1
    requires s0 * t1 - s1 * t0 == 1 || s0 * t1 - s1 * t0 == -1
    ensures a % r0 == 0 && b % r0 == 0
  {
    var e := s0 * t1 - s1 * t0;
    CramersRule(a, b, s0, s1, t0, t1);
    assert e * (e * a) == a && e * (e * b) == b;
    DivIntro(a, r0, e * t1);
    DivIntro(b, r0, -(e * s1));
  }

  lemma CramersRule(a: int, b: int, s0: int, s1: int, t0: int, t1: int)
    requires 0 == a * s1 + b * t1
    ensures (s0 * t1 - s1 * t0) * a == (a * s0 + b * t0) * t1
    ensures (s0 * t1 - s1 * t0) * b == -((a * s0 + b * t0) * s1)
  {
    assert (a * s1 + b * t1) * t0 == 0 && (a * s1 + b * t1) * s0 == 0;
  }

  /** The source's solveMod for a positive modulus: it reports a solution exactly when one exists,
      and then the solutions are exactly the numbers congruent to s modulo t. */
  method SolveMod(a: int, b: int, m: int) returns (res: Solution)
    requires m > 0
    ensures res.Solvable? <==> exists x :: Solves(a, b, m, x)
    ensures res.Solvable? ==> 0 <= res.s < m && res.t > 0 && m % res.t == 0
    ensures res.Solvable? ==> forall x :: Solves(a, b, m, x) <==> Congruent(x, res.s, res.t)
  {
    var g, d, e := ExtendedGCD(a, m);
    var q, r := b / g, b % g;
    if r != 0 {
      forall x ensures !Solves(a, b, m, x) {
        if Solves(a, b, m, x) {
          SolvableNeedsDivisor(a, b, m, g, x);
        }
      }
      return Unsolvable;
    }
    q := q * d;
    var s := q % m;
    var t := FloorDivision(m, g);
    PositiveQuotient(m, g);
    forall x ensures Solves(a, b, m, x) <==> Congruent(x, s, t) {
      SolutionSet(a, b, m, g, d, e, s, x);
    }
    assert Congruent(s, s, t);
    assert Solves(a, b, m, s);
    return Solvable(s, t);
  }

  lemma PositiveQuotient(m: int, g: int)
    requires m > 0 && g > 0 && m % g == 0
    ensures m / g > 0 && m % (m / g) == 0
  {
    var k := m / g;
    assert m == g * k;
    if k <= 0 {
      MonotoneProduct(k, 0, g);
      assert false;
    }
    DivIntro(m, k, g);
  }

  lemma SolvableNeedsDivisor(a: int, b: int, m: int, g: int, x: int)
    requires m > 0 && g > 0 && a % g == 0 && m % g == 0 && Solves(a, b, m, x)
    ensures b % g == 0
  {
    DividesMultiple(a, x, g);
    DividesTrans(a * x - b, m, g);
    DividesSum(a * x, a * x - b, g);
    assert a * x - (a * x - b) == b;
  }

  /** Dividing a congruence by a common divisor of its three numbers keeps its solutions. */
  lemma SolvesReduced(a: int, b: int, m: int, g: int, x: int)
    requires m > 0 && g > 0 && a % g == 0 && m % g == 0 && b % g == 0 && m / g > 0
    ensures Solves(a, b, m, x) <==> (a / g * x - b / g) % (m / g) == 0
  {
    var a', b', m' := a / g, b / g, m / g;
    assert a == g * a' && b == g * b' && m == g * m';
    assert a * x - b == g * (a' * x - b') by { MulAssoc(g, a', x); }
    CancelFactor(g, m', a' * x - b');
  }

  /** From one solution s, with a invertible modulo m, the solutions are the numbers congruent to s. */
  lemma ReducedSolutions(a: int, b: int, m: int, d: int, e: int, s: int, x: int)
    requires m > 0 && a * d + m * e == 1 && (a * s - b) % m == 0
    ensures (a * x - b) % m == 0 <==> Congruent(x, s, m)
  {
    assert a * x - b == a * (x - s) + (a * s - b);
    if (a * x - b) % m == 0 {
      DividesSum(a * x - b, a * s - b, m);
      CoprimeCancel(a, m, d, e, x - s);
    }
    if (x - s) % m == 0 {
      DividesMultiple(x - s, a, m);
      DividesSum(a * (x - s), a * s - b, m);
    }
  }

  lemma SolutionsOfParts(a: int, b: int, m: int, g: int, d: int, e: int, s: int, x: int)
    requires m > 0 && g > 0 && g * m > 0 && g == (g * a) * d + (g * m) * e && s == (b * d) % (g * m)
    ensures (a * x - b) % m == 0 <==> Congruent(x, s, m)
  {
    UnitBezout(g, a, m, d, e);
    SolutionResidue(a, b, m, g, d, e, s);
    ReducedSolutions(a, b, m, d, e, s, x);
  }

  lemma SolutionSet(a: int, b: int, m: int, g: int, d: int, e: int, s: int, x: int)
    requires m > 0 && g > 0 && a % g == 0 && m % g == 0 && b % g == 0 && m / g > 0
    requires g == a * d + m * e && s == ((b / g) * d) % m
    ensures Solves(a, b, m, x) <==> Congruent(x, s, m / g)
  {
    hide Congruent, Solves;
    SolvesReduced(a, b, m, g, x);
    assert a == g * (a / g) && m == g * (m / g);
    SolutionsOfParts(a / g, b / g, m / g, g, d, e, s, x);
  }

  lemma UnitBezout(g: int, a: int, m: int, d: int, e: int)
    requires g > 0 && g == (g * a) * d + (g * m) * e
    ensures a * d + m * e == 1
  {
    MulAssoc(g, a, d);
    MulAssoc(g, m, e);
    assert g * (a * d + m * e) == g * (a * d) + g * (m * e);
    CancelLeft(g, a * d + m * e, 1);
  }

  /** With a*d + m*e = 1, reducing b*d modulo g*m leaves a solution of a*x = b modulo m. */
  lemma SolutionResidue(a: int, b: int, m: int, g: int, d: int, e: int, s: int)
    requires m > 0 && g > 0 && g * m > 0 && a * d + m * e == 1 && s == (b * d) % (g * m)
    ensures (a * s - b) % m == 0
  {
    var k := (b * d) / (g * m);
    assert s == b * d - (g * m) * k;
    ResidueIdentity(a, b, m, g, d, e, k);
    DivIntro(a * s - b, m, -(b * e) - a * g * k);
  }

  lemma ResidueIdentity(a: int, b: int, m: int, g: int, d: int, e: int, k: int)
    requires a * d + m * e == 1
    ensures a * (b * d - (g * m) * k) - b == m * (-(b * e) - a * g * k)
  {
    assert b * (a * d + m * e) == b;
    assert a * (b * d) + m * (b * e) == b * (a * d + m * e);
    assert a * (b * d - (g * m) * k) == a * (b * d) - m * (a * g * k);
    assert m * (-(b * e) - a * g * k) == -(m * (b * e)) - m * (a * g * k);
  }

  lemma CoprimeCancel(a: int, m: int, d: int, e: int, y: int)
    requires m > 0 && a * d + m * e == 1 && (a * y) % m == 0
    ensures y % m == 0
  {
    DividesMultiple(a * y, d, m);
    DivIntro(m * (e * y), m, e * y);
    DividesSum((a * y) * d, m * (e * y), m);
    assert (a * y) * d + m * (e * y) == (a * d + m * e) * y;
  }
}
