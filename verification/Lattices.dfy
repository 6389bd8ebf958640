/** Forms as lattices in their quadratic order. Two forms are properly equivalent exactly when their
    lattices are homothetic; this is what makes composition well defined on classes. */
module Lattices {
  import opened Integers
  import opened Forms
  import opened Order
  import Algebra

  /** R is the order of the form's discriminant. */
  predicate Fits(R: Ring, f: Form) {
    0 <= R.sigma <= 1 && Discriminant(f) == R.sigma * R.sigma + 4 * R.nu
  }

  function RingOf(f: Form): Ring {
    var s := Discriminant(f) % 2;
    Ring(s, (Discriminant(f) - s) / 4)
  }

  lemma RingFits(f: Form)
    ensures Fits(RingOf(f), f)
  {
    var q := f.b / 2;
    SquareModFour(f.b, q);
    assert Discriminant(f) == 4 * (q * q + q * (f.b % 2) - f.a * f.c) + (f.b % 2);
  }

  lemma SquareModFour(b: int, q: int)
    requires q == b / 2
    ensures b * b == 4 * (q * q + q * (b % 2)) + b % 2
  {
    var r := b % 2;
    assert b == 2 * q + r;
    assert (2 * q + r) * (2 * q + r) == 4 * (q * q) + 4 * (q * r) + r * r;
    assert r * r == r;
  }

  /** theta = tau - Half is the root the form contributes to its lattice. */
  function Half(R: Ring, f: Form): int {
    (f.b + R.sigma) / 2
  }

  lemma HalfExact(R: Ring, f: Form)
    requires Fits(R, f)
    ensures f.b == 2 * Half(R, f) - R.sigma
    ensures Half(R, f) * Half(R, f) - R.sigma * Half(R, f) - R.nu == f.a * f.c
  {
    ParityFromSquare(f.b, R.sigma, f.a * f.c + R.nu);
    var h, s := Half(R, f), R.sigma;
    assert (2 * h - s) * (2 * h - s) == 4 * (h * h) - 4 * (s * h) + s * s;
  }

  lemma ParityFromSquare(b: int, s: int, n: int)
    requires b * b == s * s + 4 * n && 0 <= s <= 1
    ensures (b + s) % 2 == 0
  {
    SquareModFour(b, b / 2);
    assert s * s == s;
  }

  function Unit(f: Form): Num {
    Num(f.a, 0)
  }

  function Theta(R: Ring, f: Form): Num {
    Num(-Half(R, f), 1)
  }

  /** The lattice point i*a + j*theta. */
  function Point(R: Ring, f: Form, i: int, j: int): Num {
    Num(i * f.a - j * Half(R, f), j)
  }

  ghost predicate In(R: Ring, f: Form, z: Num) {
    exists i, j :: z == Point(R, f, i, j)
  }

  lemma PointIn(R: Ring, f: Form, i: int, j: int)
    ensures In(R, f, Point(R, f, i, j))
  {
  }

  lemma PointSplits(R: Ring, f: Form, i: int, j: int)
    ensures Point(R, f, i, j) == Add(Scale(i, Unit(f)), Scale(j, Theta(R, f)))
  {
    assert j * -Half(R, f) == -(j * Half(R, f));
  }

  lemma PointAdd(R: Ring, f: Form, i: int, j: int, i': int, j': int)
    ensures Add(Point(R, f, i, j), Point(R, f, i', j')) == Point(R, f, i + i', j + j')
  {
    assert (i + i') * f.a == i * f.a + i' * f.a;
    assert (j + j') * Half(R, f) == j * Half(R, f) + j' * Half(R, f);
  }

  lemma PointScale(R: Ring, f: Form, n: int, i: int, j: int)
    ensures Scale(n, Point(R, f, i, j)) == Point(R, f, n * i, n * j)
  {
    assert n * (i * f.a - j * Half(R, f)) == (n * i) * f.a - (n * j) * Half(R, f);
  }

  lemma UnitIsPoint(R: Ring, f: Form)
    ensures Unit(f) == Point(R, f, 1, 0) && In(R, f, Unit(f))
  {
    var i, j := 1, 0;
    assert i * f.a - j * Half(R, f) == f.a;
    PointIn(R, f, i, j);
  }

  lemma ThetaIsPoint(R: Ring, f: Form)
    ensures Theta(R, f) == Point(R, f, 0, 1) && In(R, f, Theta(R, f))
  {
    var i, j := 0, 1;
    assert i * f.a - j * Half(R, f) == -Half(R, f);
    PointIn(R, f, i, j);
  }

  lemma InAdd(R: Ring, f: Form, z: Num, w: Num)
    requires In(R, f, z) && In(R, f, w)
    ensures In(R, f, Add(z, w))
  {
    var i, j :| z == Point(R, f, i, j);
    var i', j' :| w == Point(R, f, i', j');
    PointAdd(R, f, i, j, i', j');
    PointIn(R, f, i + i', j + j');
  }

  lemma InScale(R: Ring, f: Form, n: int, z: Num)
    requires In(R, f, z)
    ensures In(R, f, Scale(n, z))
  {
    var i, j :| z == Point(R, f, i, j);
    PointScale(R, f, n, i, j);
    PointIn(R, f, n * i, n * j);
  }

  lemma PointUnique(R: Ring, f: Form, i: int, j: int, i': int, j': int)
    requires f.a > 0 && Point(R, f, i, j) == Point(R, f, i', j')
    ensures i == i' && j == j'
  {
    assert i * f.a == f.a * i && i' * f.a == f.a * i';
    CancelLeft(f.a, i, i');
  }

  /** The norm of a lattice point is a times a value of the form. */
  lemma PointNorm(R: Ring, f: Form, i: int, j: int)
    requires Fits(R, f)
    ensures Norm(R, Point(R, f, i, j)) == f.a * Value(f, i, -j)
  {
    HalfExact(R, f);
    var h := Half(R, f);
    NormOfPoint(R.sigma, R.nu, h, f.a, i, j);
    assert f.b * i * -j == -((2 * h - R.sigma) * (i * j)) && f.c * -j * -j == f.c * (j * j);
    ScaledValue(f.a, 2 * h - R.sigma, f.c, i, j);
    assert f.a * i * i == f.a * (i * i);
  }

  lemma SquaredGap(u: int, v: int)
    ensures (u - v) * (u - v) == u * u - 2 * (u * v) + v * v
  {
    assert (u - v) * (u - v) == u * (u - v) - v * (u - v);
  }

  lemma GapTimes(u: int, v: int, s: int, j: int)
    ensures s * ((u - v) * j) == s * (u * j) - s * (v * j)
  {
    assert (u - v) * j == u * j - v * j;
  }

  /** The products of the coordinates, as multiples of i*i, i*j and j*j. */
  lemma PointProducts(s: int, h: int, a: int, i: int, j: int)
    ensures (i * a) * (i * a) == a * (a * (i * i)) && (j * h) * (j * h) == (h * h) * (j * j)
    ensures (i * a) * (j * h) == a * (h * (i * j)) && s * ((i * a) * j) == a * (s * (i * j))
    ensures s * ((j * h) * j) == (s * h) * (j * j)
  {
    MulAssoc(a, a, i * i);
    MulAssoc(a, h, i * j);
    FourProducts(i, a);
    FourProducts(j, h);
    assert (i * a) * (j * h) == (a * h) * (i * j);
    assert s * ((i * a) * j) == a * (s * (i * j));
  }

  lemma FourProducts(x: int, y: int)
    ensures (x * y) * (x * y) == (y * y) * (x * x)
  {
  }

  lemma NormFactors(s: int, n: int, h: int, a: int, x: int, y: int)
    ensures a * ((2 * h - s) * x) == 2 * (a * (h * x)) - a * (s * x)
    ensures (h * h - s * h - n) * y == (h * h) * y - (s * h) * y - n * y
  {
    assert (2 * h - s) * x == 2 * (h * x) - s * x;
  }

  lemma NormOfPoint(s: int, n: int, h: int, a: int, i: int, j: int)
    ensures (i * a - j * h) * (i * a - j * h) + s * ((i * a - j * h) * j) - n * (j * j)
         == a * (a * (i * i)) - a * ((2 * h - s) * (i * j)) + (h * h - s * h - n) * (j * j)
  {
    SquaredGap(i * a, j * h);
    GapTimes(i * a, j * h, s, j);
    PointProducts(s, h, a, i, j);
    NormFactors(s, n, h, a, i * j, j * j);
  }

  lemma ScaledValue(a: int, b: int, c: int, i: int, j: int)
    ensures a * (a * (i * i) - b * (i * j) + c * (j * j)) == a * (a * (i * i)) - a * (b * (i * j)) + (a * c) * (j * j)
  {
    Algebra.TripleScaled(a, a * (i * i), b * (i * j), c * (j * j));
  }

  // ----- homothety of lattices -----

  /** beta times some point of g's lattice equals alpha*u. */
  ghost predicate Matches(R: Ring, alpha: Num, u: Num, beta: Num, g: Form) {
    exists v :: In(R, g, v) && Mul(R, alpha, u) == Mul(R, beta, v)
  }

  /** alpha times f's lattice is contained in beta times g's. */
  ghost predicate Covers(R: Ring, alpha: Num, f: Form, beta: Num, g: Form) {
    forall u :: In(R, f, u) ==> Matches(R, alpha, u, beta, g)
  }

  ghost predicate HomotheticBy(R: Ring, f: Form, g: Form, alpha: Num, beta: Num) {
    Nonzero(alpha) && Nonzero(beta) && Covers(R, alpha, f, beta, g) && Covers(R, beta, g, alpha, f)
  }

  ghost predicate Homothetic(R: Ring, f: Form, g: Form) {
    exists alpha, beta :: HomotheticBy(R, f, g, alpha, beta)
  }

  lemma MatchesBy(R: Ring, alpha: Num, u: Num, beta: Num, g: Form, v: Num)
    requires In(R, g, v) && Mul(R, alpha, u) == Mul(R, beta, v)
    ensures Matches(R, alpha, u, beta, g)
  {
  }

  lemma MatchesCombination(R: Ring, alpha: Num, u: Num, u': Num, beta: Num, g: Form, i: int, j: int)
    requires Matches(R, alpha, u, beta, g) && Matches(R, alpha, u', beta, g)
    ensures Matches(R, alpha, Add(Scale(i, u), Scale(j, u')), beta, g)
  {
    var v :| In(R, g, v) && Mul(R, alpha, u) == Mul(R, beta, v);
    var v' :| In(R, g, v') && Mul(R, alpha, u') == Mul(R, beta, v');
    var w := Add(Scale(i, v), Scale(j, v'));
    InScale(R, g, i, v);
    InScale(R, g, j, v');
    InAdd(R, g, Scale(i, v), Scale(j, v'));
    MulCombination(R, alpha, i, u, j, u');
    MulCombination(R, beta, i, v, j, v');
    MatchesBy(R, alpha, Add(Scale(i, u), Scale(j, u')), beta, g, w);
  }

  lemma MulCombination(R: Ring, z: Num, i: int, u: Num, j: int, v: Num)
    ensures Mul(R, z, Add(Scale(i, u), Scale(j, v))) == Add(Scale(i, Mul(R, z, u)), Scale(j, Mul(R, z, v)))
  {
    MulDistributes(R, z, Scale(i, u), Scale(j, v));
    MulScale(R, i, z, u);
    MulScale(R, j, z, v);
  }

  lemma CoversByGenerators(R: Ring, alpha: Num, f: Form, beta: Num, g: Form)
    requires Matches(R, alpha, Unit(f), beta, g) && Matches(R, alpha, Theta(R, f), beta, g)
    ensures Covers(R, alpha, f, beta, g)
  {
    forall u | In(R, f, u) ensures Matches(R, alpha, u, beta, g) {
      var i, j :| u == Point(R, f, i, j);
      PointSplits(R, f, i, j);
      MatchesCombination(R, alpha, Unit(f), Theta(R, f), beta, g, i, j);
    }
  }

  lemma HomotheticReflexive(R: Ring, f: Form)
    ensures Homothetic(R, f, f)
  {
    var one := Num(1, 0);
    forall u | In(R, f, u) ensures Matches(R, one, u, one, f) {
      MatchesBy(R, one, u, one, f, u);
    }
    assert HomotheticBy(R, f, f, one, one);
  }

  lemma CoversTransitive(R: Ring, f: Form, g: Form, h: Form, alpha: Num, beta: Num, gamma: Num, delta: Num)
    requires Covers(R, alpha, f, beta, g) && Covers(R, gamma, g, delta, h)
    ensures Covers(R, Mul(R, gamma, alpha), f, Mul(R, beta, delta), h)
  {
    forall u | In(R, f, u) ensures Matches(R, Mul(R, gamma, alpha), u, Mul(R, beta, delta), h) {
      assert Matches(R, alpha, u, beta, g);
      var v :| In(R, g, v) && Mul(R, alpha, u) == Mul(R, beta, v);
      assert Matches(R, gamma, v, delta, h);
      var w :| In(R, h, w) && Mul(R, gamma, v) == Mul(R, delta, w);
      MulAssociates(R, gamma, alpha, u);
      MulAssociates(R, gamma, beta, v);
      MulCommutes(R, gamma, beta);
      MulAssociates(R, beta, gamma, v);
      MulAssociates(R, beta, delta, w);
      MatchesBy(R, Mul(R, gamma, alpha), u, Mul(R, beta, delta), h, w);
    }
  }

  lemma HomotheticTransitive(R: Ring, f: Form, g: Form, h: Form)
    requires Definite(R) && Homothetic(R, f, g) && Homothetic(R, g, h)
    ensures Homothetic(R, f, h)
  {
    var alpha, beta :| HomotheticBy(R, f, g, alpha, beta);
    var gamma, delta :| HomotheticBy(R, g, h, gamma, delta);
    CoversTransitive(R, f, g, h, alpha, beta, gamma, delta);
    CoversTransitive(R, h, g, f, delta, gamma, beta, alpha);
    MulCommutes(R, gamma, alpha);
    MulCommutes(R, beta, delta);
    NonzeroMul(R, gamma, alpha);
    NonzeroMul(R, beta, delta);
    MulCommutes(R, alpha, gamma);
    assert HomotheticBy(R, f, h, Mul(R, gamma, alpha), Mul(R, beta, delta));
  }

  // ----- equivalent forms have homothetic lattices -----

  lemma TranslatedHalf(R: Ring, f: Form, n: int)
    requires Fits(R, f) && Fits(R, Translate(f, n))
    ensures Half(R, Translate(f, n)) == Half(R, f) + n * f.a
  {
    HalfExact(R, f);
    HalfExact(R, Translate(f, n));
    assert 2 * n * f.a == 2 * (n * f.a);
  }

  /** When the half coefficients differ by a multiple of a, every point of f's lattice is one of g's. */
  lemma TranslateCovers(R: Ring, f: Form, g: Form, n: int)
    requires g.a == f.a && Half(R, g) == Half(R, f) + n * f.a
    ensures Covers(R, Num(1, 0), f, Num(1, 0), g)
  {
    hide Half, Matches;
    var one := Num(1, 0);
    forall u | In(R, f, u) ensures Matches(R, one, u, one, g) {
      var i, j :| u == Point(R, f, i, j);
      TranslatedPoint(f.a, Half(R, f), n, i, j);
      PointIn(R, g, i + j * n, j);
      MatchesBy(R, one, u, one, g, u);
    }
  }

  lemma HomotheticWitness(R: Ring, f: Form, g: Form, alpha: Num, beta: Num)
    requires Nonzero(alpha) && Nonzero(beta) && Covers(R, alpha, f, beta, g) && Covers(R, beta, g, alpha, f)
    ensures Homothetic(R, f, g)
  {
    assert HomotheticBy(R, f, g, alpha, beta);
  }

  /** A translation does not change the lattice. */
  lemma TranslateHomothetic(R: Ring, f: Form, n: int)
    requires Fits(R, f) && Fits(R, Translate(f, n))
    ensures Homothetic(R, f, Translate(f, n))
  {
    hide Fits, In, Matches, Covers, HomotheticBy, Homothetic;
    var g, one := Translate(f, n), Num(1, 0);
    TranslatedHalf(R, f, n);
    TranslateCovers(R, f, g, n);
    TranslateCovers(R, g, f, -n);
    HomotheticWitness(R, f, g, one, one);
  }

  lemma TranslatedPoint(a: int, h: int, n: int, i: int, j: int)
    ensures i * a - j * h == (i + j * n) * a - j * (h + n * a)
  {
    assert (i + j * n) * a == i * a + j * (n * a);
    assert j * (h + n * a) == j * h + j * (n * a);
  }

  function Exchange(f: Form): Form {
    Form(f.c, -f.b, f.a)
  }

  /** theta' * (f's lattice) = a * (the lattice of the exchanged form). */
  lemma ExchangeHomothetic(R: Ring, f: Form)
    requires Fits(R, f) && f.a > 0
    ensures Homothetic(R, f, Exchange(f))
  {
    ExchangeForward(R, f);
    ExchangeBackward(R, f);
    assert HomotheticBy(R, f, Exchange(f), Theta(R, Exchange(f)), Unit(f));
  }

  lemma ExchangeForward(R: Ring, f: Form)
    requires Fits(R, f)
    ensures Covers(R, Theta(R, Exchange(f)), f, Unit(f), Exchange(f))
  {
    var g := Exchange(f);
    var alpha, beta := Theta(R, g), Unit(f);
    ExchangeProducts(R, f);
    UnitIsPoint(R, g);
    ThetaIsPoint(R, g);
    MatchesBy(R, alpha, Unit(f), beta, g, Theta(R, g));
    InScale(R, g, -1, Unit(g));
    MatchesBy(R, alpha, Theta(R, f), beta, g, Scale(-1, Unit(g)));
    CoversByGenerators(R, alpha, f, beta, g);
  }

  lemma ExchangeBackward(R: Ring, f: Form)
    requires Fits(R, f)
    ensures Covers(R, Unit(f), Exchange(f), Theta(R, Exchange(f)), f)
  {
    var g := Exchange(f);
    var alpha, beta := Theta(R, g), Unit(f);
    ExchangeProducts(R, f);
    UnitIsPoint(R, f);
    ThetaIsPoint(R, f);
    InScale(R, f, -1, Theta(R, f));
    MatchesBy(R, beta, Unit(g), alpha, f, Scale(-1, Theta(R, f)));
    MatchesBy(R, beta, Theta(R, g), alpha, f, Unit(f));
    CoversByGenerators(R, beta, g, alpha, f);
  }

  lemma ExchangeProducts(R: Ring, f: Form)
    requires Fits(R, f)
    ensures var g := Exchange(f);
            && Mul(R, Theta(R, g), Unit(f)) == Mul(R, Unit(f), Theta(R, g))
            && Mul(R, Theta(R, g), Theta(R, f)) == Mul(R, Unit(f), Scale(-1, Unit(g)))
            && Mul(R, Unit(f), Unit(g)) == Mul(R, Theta(R, g), Scale(-1, Theta(R, f)))
  {
    var g := Exchange(f);
    assert g.b * g.b == f.b * f.b && g.a * g.c == f.a * f.c;
    HalfExact(R, f);
    HalfExact(R, g);
    var h, h' := Half(R, f), Half(R, g);
    assert h' == R.sigma - h;
    MulCommutes(R, Unit(f), Theta(R, g));
    RootProduct(R.sigma, R.nu, h, f.a * f.c);
    assert f.a * (-1 * f.c) == -(f.a * f.c);
    MulScale(R, -1, Theta(R, g), Theta(R, f));
  }

  lemma RootProduct(s: int, n: int, h: int, k: int)
    requires h * h - s * h - n == k
    ensures (-(s - h)) * (-h) + n == -k
  {
  }

  lemma TurnHomothetic(R: Ring, f: Form, n: int)
    requires PositiveDefinite(f) && Fits(R, f)
    ensures Fits(R, Turn(f, n)) && Homothetic(R, f, Turn(f, n))
  {
    var g := Exchange(f);
    assert g.b * g.b == f.b * f.b && g.a * g.c == f.a * f.c;
    PositiveOuterCoefficient(f);
    assert Turn(f, n) == Translate(g, n);
    TranslateEquivalent(g, n);
    EquivalentKeeps(g, Translate(g, n));
    ExchangeHomothetic(R, f);
    TranslateHomothetic(R, g, n);
    HomotheticTransitive(R, f, g, Translate(g, n));
  }

  lemma {:induction false} NormalHomotheticCanonical(R: Ring, f: Form)
    requires PositiveDefinite(f) && IsNormal(f) && Fits(R, f)
    ensures Homothetic(R, f, Canonical(f))
    decreases f.a, if f.b < 0 then 1 else 0
  {
    PositiveOuterCoefficient(f);
    if NeedsTurn(f) {
      var n := FloorDivision(f.c + f.b, f.c + f.c);
      TurnProgress(f, n);
      TurnHomothetic(R, f, n);
      NormalHomotheticCanonical(R, Turn(f, n));
      ReductionDecidesEquivalence(f, Turn(f, n));
      HomotheticTransitive(R, f, Turn(f, n), Canonical(f));
    } else {
      EquivalentReflexive(f);
      CanonicalUnique(f, f);
      HomotheticReflexive(R, f);
    }
  }

  lemma HomotheticCanonical(R: Ring, f: Form)
    requires PositiveDefinite(f) && Fits(R, f)
    ensures Homothetic(R, f, Canonical(f))
  {
    var g := Normalized(f);
    NormalizedEquivalent(f);
    EquivalentKeeps(f, g);
    NormalHomotheticCanonical(R, g);
    ReductionDecidesEquivalence(f, g);
    if !IsNormal(f) {
      TranslateHomothetic(R, f, FloorDivision(f.a - f.b, f.a * 2));
      HomotheticTransitive(R, f, g, Canonical(f));
    }
  }

  // ----- homothetic lattices come from equivalent forms -----

  /** The matrix by which alpha*(a, theta) is expressed in beta times the lattice of g. */
  lemma CoverMatrix(R: Ring, alpha: Num, f: Form, beta: Num, g: Form) returns (p: int, r: int, q: int, s: int)
    requires Covers(R, alpha, f, beta, g)
    ensures Mul(R, alpha, Unit(f)) == Mul(R, beta, Point(R, g, p, r))
    ensures Mul(R, alpha, Theta(R, f)) == Mul(R, beta, Point(R, g, q, s))
  {
    UnitIsPoint(R, f);
    ThetaIsPoint(R, f);
    assert Matches(R, alpha, Unit(f), beta, g) && Matches(R, alpha, Theta(R, f), beta, g);
    var v :| In(R, g, v) && Mul(R, alpha, Unit(f)) == Mul(R, beta, v);
    var w :| In(R, g, w) && Mul(R, alpha, Theta(R, f)) == Mul(R, beta, w);
    p, r :| v == Point(R, g, p, r);
    q, s :| w == Point(R, g, q, s);
  }

  lemma PointThroughMatrix(R: Ring, alpha: Num, f: Form, beta: Num, g: Form, p: int, r: int, q: int, s: int,
                           i: int, j: int)
    requires Mul(R, alpha, Unit(f)) == Mul(R, beta, Point(R, g, p, r))
    requires Mul(R, alpha, Theta(R, f)) == Mul(R, beta, Point(R, g, q, s))
    ensures Mul(R, alpha, Point(R, f, i, j)) == Mul(R, beta, Point(R, g, i * p + j * q, i * r + j * s))
  {
    PointSplits(R, f, i, j);
    MulCombination(R, alpha, i, Unit(f), j, Theta(R, f));
    MulCombination(R, beta, i, Point(R, g, p, r), j, Point(R, g, q, s));
    PointScale(R, g, i, p, r);
    PointScale(R, g, j, q, s);
    PointAdd(R, g, i * p, i * r, j * q, j * s);
  }

  /** Covering both ways forces the matrix to be invertible over the integers. */
  lemma MatrixInvertible(R: Ring, alpha: Num, f: Form, beta: Num, g: Form, p: int, r: int, q: int, s: int)
    requires Definite(R) && g.a > 0 && HomotheticBy(R, f, g, alpha, beta)
    requires Mul(R, alpha, Unit(f)) == Mul(R, beta, Point(R, g, p, r))
    requires Mul(R, alpha, Theta(R, f)) == Mul(R, beta, Point(R, g, q, s))
    ensures p * s - q * r == 1 || p * s - q * r == -1
  {
    var p', r', q', s' := CoverMatrix(R, beta, g, alpha, f);
    UnitIsPoint(R, g);
    ThetaIsPoint(R, g);
    PointThroughMatrix(R, alpha, f, beta, g, p, r, q, s, p', r');
    PointThroughMatrix(R, alpha, f, beta, g, p, r, q, s, q', s');
    MulCancel(R, beta, Unit(g), Point(R, g, p' * p + r' * q, p' * r + r' * s));
    MulCancel(R, beta, Theta(R, g), Point(R, g, q' * p + s' * q, q' * r + s' * s));
    PointUnique(R, g, 1, 0, p' * p + r' * q, p' * r + r' * s);
    PointUnique(R, g, 0, 1, q' * p + s' * q, q' * r + s' * s);
    Algebra.DeterminantIdentity(p', r', q', s', p, r, q, s);
    UnitProduct(p' * s' - r' * q', p * s - r * q);
    assert r * q == q * r;
  }

  lemma WedgeOfPoints(R: Ring, g: Form, p: int, r: int, q: int, s: int)
    ensures Wedge(Point(R, g, p, r), Point(R, g, q, s)) == (p * s - q * r) * g.a
  {
    var h := Half(R, g);
    assert (p * g.a - r * h) * s == (p * s) * g.a - (r * s) * h;
    assert r * (q * g.a - s * h) == (q * r) * g.a - (r * s) * h;
  }

  lemma DefiniteRing(R: Ring, f: Form)
    requires PositiveDefinite(f) && Fits(R, f)
    ensures Definite(R) && f.a > 0
  {
  }

  lemma MatrixEquivalent(f: Form, g: Form, p: int, q: int, r: int, s: int)
    requires p * s - q * r == 1
    requires Value(f, 1, -0) == Value(g, 1 * p + 0 * q, -(1 * r + 0 * s))
    requires Value(f, 0, -1) == Value(g, 0 * p + 1 * q, -(0 * r + 1 * s))
    requires Value(f, 1, -1) == Value(g, 1 * p + 1 * q, -(1 * r + 1 * s))
    ensures Equivalent(g, f)
  {
    hide Value, Substitute;
    ValuesDetermine(f, g, p, q, r, s);
    assert -q * -r == q * r;
    EquivalentBy(g, f, Substitution(p, -q, -r, s));
  }

  /** Homothetic lattices have properly equivalent forms. */
  lemma HomotheticIsEquivalent(R: Ring, f: Form, g: Form)
    requires PositiveDefinite(f) && PositiveDefinite(g) && Fits(R, f) && Fits(R, g)
    requires Homothetic(R, f, g)
    ensures Equivalent(g, f)
  {
    hide Equivalent, Substitute, Value, Covers;
    DefiniteRing(R, f);
    var alpha, beta :| HomotheticBy(R, f, g, alpha, beta);
    var p, r, q, s := CoverMatrix(R, alpha, f, beta, g);
    MatrixInvertible(R, alpha, f, beta, g, p, r, q, s);
    hide Fits, PositiveDefinite, Point, Mul;
    MatrixArea(R, alpha, f, beta, g, p, r, q, s);
    MatrixValue(R, alpha, f, beta, g, p, r, q, s, 1, 0);
    MatrixValue(R, alpha, f, beta, g, p, r, q, s, 0, 1);
    MatrixValue(R, alpha, f, beta, g, p, r, q, s, 1, 1);
    MatrixEquivalent(f, g, p, q, r, s);
  }

  lemma MatrixArea(R: Ring, alpha: Num, f: Form, beta: Num, g: Form, p: int, r: int, q: int, s: int)
    requires Definite(R) && f.a > 0 && g.a > 0 && Nonzero(alpha) && Nonzero(beta)
    requires Mul(R, alpha, Unit(f)) == Mul(R, beta, Point(R, g, p, r))
    requires Mul(R, alpha, Theta(R, f)) == Mul(R, beta, Point(R, g, q, s))
    requires p * s - q * r == 1 || p * s - q * r == -1
    ensures p * s - q * r == 1 && Norm(R, alpha) * f.a == Norm(R, beta) * g.a > 0
  {
    WedgeMul(R, alpha, Unit(f), Theta(R, f));
    WedgeMul(R, beta, Point(R, g, p, r), Point(R, g, q, s));
    WedgeOfPoints(R, g, p, r, q, s);
    NormPositive(R, alpha);
    NormPositive(R, beta);
    PositiveProduct(Norm(R, alpha), f.a);
    PositiveProduct(Norm(R, beta), g.a);
    SignedArea(Norm(R, alpha) * f.a, Norm(R, beta), g.a, p * s - q * r);
  }

  lemma SignedArea(x: int, n: int, a: int, e: int)
    requires x > 0 && n * a > 0 && x == n * (e * a) && (e == 1 || e == -1)
    ensures e == 1 && x == n * a
  {
    assert n * (-1 * a) == -(n * a);
  }

  lemma MatrixValue(R: Ring, alpha: Num, f: Form, beta: Num, g: Form, p: int, r: int, q: int, s: int, i: int, j: int)
    requires Fits(R, f) && Fits(R, g)
    requires Mul(R, alpha, Unit(f)) == Mul(R, beta, Point(R, g, p, r))
    requires Mul(R, alpha, Theta(R, f)) == Mul(R, beta, Point(R, g, q, s))
    requires Norm(R, alpha) * f.a == Norm(R, beta) * g.a > 0
    ensures Value(f, i, -j) == Value(g, i * p + j * q, -(i * r + j * s))
  {
    PointThroughMatrix(R, alpha, f, beta, g, p, r, q, s, i, j);
    NormMul(R, alpha, Point(R, f, i, j));
    NormMul(R, beta, Point(R, g, i * p + j * q, i * r + j * s));
    PointNorm(R, f, i, j);
    PointNorm(R, g, i * p + j * q, i * r + j * s);
    var v, w := Value(f, i, -j), Value(g, i * p + j * q, -(i * r + j * s));
    MulAssoc(Norm(R, alpha), f.a, v);
    MulAssoc(Norm(R, beta), g.a, w);
    CancelLeft(Norm(R, alpha) * f.a, v, w);
  }

  /** A form is determined by its values at (1,0), (0,-1) and (1,-1). */
  lemma ValuesDetermine(f: Form, g: Form, p: int, q: int, r: int, s: int)
    requires Value(f, 1, -0) == Value(g, 1 * p + 0 * q, -(1 * r + 0 * s))
    requires Value(f, 0, -1) == Value(g, 0 * p + 1 * q, -(0 * r + 1 * s))
    requires Value(f, 1, -1) == Value(g, 1 * p + 1 * q, -(1 * r + 1 * s))
    ensures Substitute(g, Substitution(p, -q, -r, s)) == f
  {
    assert f.a == Value(g, p, -r) && f.c == Value(g, q, -s) && f.a - f.b + f.c == Value(g, p + q, -r - s);
    Polarization(g.a, g.b, g.c, p, -r, q, -s);
    Negation(g.a, g.b, g.c, p, -r, q, -s);
  }

  lemma Polarization(a: int, b: int, c: int, x: int, y: int, z: int, w: int)
    ensures a * (x + z) * (x + z) + b * (x + z) * (y + w) + c * (y + w) * (y + w)
         == (a * x * x + b * x * y + c * y * y) + (a * z * z + b * z * w + c * w * w)
              + (2 * a * x * z + b * (x * w + y * z) + 2 * c * y * w)
  {
    Algebra.ProductOfSums(a, x, z, x, z);
    Algebra.ProductOfSums(b, x, z, y, w);
    Algebra.ProductOfSums(c, y, w, y, w);
    assert b * (x * w + y * z) == b * x * w + b * z * y;
  }

  lemma Negation(a: int, b: int, c: int, x: int, y: int, z: int, w: int)
    ensures a * -z * -z + b * -z * -w + c * -w * -w == a * z * z + b * z * w + c * w * w
    ensures 2 * a * x * -z + b * (x * -w + y * -z) + 2 * c * y * -w == -(2 * a * x * z + b * (x * w + y * z) + 2 * c * y * w)
  {
  }
}
