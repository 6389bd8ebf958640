/** Composition of primitive forms is a commutative group operation on classes: the product of two
    lattices is a multiple of the lattice of the composed form. */
module GroupLaw {
  import opened Integers
  import opened Forms
  import opened Order
  import opened Lattices
  import opened Composition
  import Algebra

  /** No prime divides all three coefficients. */
  predicate Primitive(f: Form) {
    AllInputValueGCD(f.a, AllInputValueGCD(f.b, f.c)) == 1
  }

  lemma PrimitiveBezout(f: Form) returns (i: int, j: int, k: int)
    requires Primitive(f)
    ensures f.a * i + f.b * j + f.c * k == 1
  {
    var p, q := GcdBezout(f.a, AllInputValueGCD(f.b, f.c));
    var p', q' := GcdBezout(f.b, f.c);
    i, j, k := p, p' * q, q' * q;
    NestedCombination(f.b, f.c, p', q', q);
  }

  lemma NestedCombination(b: int, c: int, p: int, r: int, q: int)
    ensures (b * p + c * r) * q == b * (p * q) + c * (r * q)
  {
    MulAssoc(b, p, q);
    MulAssoc(c, r, q);
  }

  lemma PrimitiveByCombination(f: Form, i: int, j: int, k: int)
    requires f.a != 0 && f.a * i + f.b * j + f.c * k == 1
    ensures Primitive(f)
  {
    var e' := AllInputValueGCD(f.b, f.c);
    var e := AllInputValueGCD(f.a, e');
    DivisorOfPart(f.b, f.c, e', e);
    DividesMultiple(f.a, i, e);
    DividesMultiple(f.b, j, e);
    DividesMultiple(f.c, k, e);
    DividesSum(f.a * i, f.b * j, e);
    DividesSum(f.a * i + f.b * j, f.c * k, e);
    DivisorOfOne(e);
  }

  lemma DivisorOfPart(b: int, c: int, e': int, e: int)
    requires e > 0 && e' >= 0 && e' % e == 0 && e' == AllInputValueGCD(b, c)
    ensures b % e == 0 && c % e == 0
  {
    if b != 0 || c != 0 {
      DividesTrans(b, e', e);
      DividesTrans(c, e', e);
    }
  }

  lemma DivisorOfOne(e: int)
    requires e > 0 && 1 % e == 0
    ensures e == 1
  {
    if e > 1 {
      QuotientUnique(1, e, 0);
      assert false;
    }
  }

  // ----- the product of two lattices -----

  /** z is a sum of products of points of the two lattices. */
  ghost predicate InProduct(R: Ring, f: Form, g: Form, z: Num) {
    exists v, w :: InProductBy(R, f, g, z, v, w)
  }

  ghost predicate InProductBy(R: Ring, f: Form, g: Form, z: Num, v: Num, w: Num) {
    In(R, g, v) && In(R, g, w) && z == Add(Mul(R, Unit(f), v), Mul(R, Theta(R, f), w))
  }

  lemma ProductAdd(R: Ring, f: Form, g: Form, z: Num, z': Num)
    requires InProduct(R, f, g, z) && InProduct(R, f, g, z')
    ensures InProduct(R, f, g, Add(z, z'))
  {
    var v, w :| InProductBy(R, f, g, z, v, w);
    var v', w' :| InProductBy(R, f, g, z', v', w');
    InAdd(R, g, v, v');
    InAdd(R, g, w, w');
    MulDistributes(R, Unit(f), v, v');
    MulDistributes(R, Theta(R, f), w, w');
    assert InProductBy(R, f, g, Add(z, z'), Add(v, v'), Add(w, w'));
  }

  lemma ProductScale(R: Ring, f: Form, g: Form, n: int, z: Num)
    requires InProduct(R, f, g, z)
    ensures InProduct(R, f, g, Scale(n, z))
  {
    var v, w :| InProductBy(R, f, g, z, v, w);
    InScale(R, g, n, v);
    InScale(R, g, n, w);
    MulScale(R, n, Unit(f), v);
    MulScale(R, n, Theta(R, f), w);
    ScaleAdd(n, Mul(R, Unit(f), v), Mul(R, Theta(R, f), w));
    assert InProductBy(R, f, g, Scale(n, z), Scale(n, v), Scale(n, w));
  }

  lemma ProductOfPoints(R: Ring, f: Form, g: Form, u: Num, v: Num)
    requires In(R, f, u) && In(R, g, v)
    ensures InProduct(R, f, g, Mul(R, u, v))
  {
    var i, j :| u == Point(R, f, i, j);
    PointSplits(R, f, i, j);
    InScale(R, g, i, v);
    InScale(R, g, j, v);
    MulDistributes(R, v, Scale(i, Unit(f)), Scale(j, Theta(R, f)));
    ScaleMoves(R, i, Unit(f), v);
    ScaleMoves(R, j, Theta(R, f), v);
    assert InProductBy(R, f, g, Mul(R, u, v), Scale(i, v), Scale(j, v));
  }

  lemma ScaleMoves(R: Ring, i: int, u: Num, v: Num)
    ensures Mul(R, Scale(i, u), v) == Mul(R, u, Scale(i, v))
  {
    MulScale(R, i, u, v);
  }

  // ----- the product is w times the lattice of the composite -----

  /** z is n times a point of F's lattice. */
  ghost predicate InMultiple(R: Ring, n: int, F: Form, z: Num) {
    exists y :: In(R, F, y) && z == Scale(n, y)
  }

  lemma MultipleCombination(R: Ring, n: int, F: Form, z: Num, z': Num, i: int, j: int)
    requires InMultiple(R, n, F, z) && InMultiple(R, n, F, z')
    ensures InMultiple(R, n, F, Add(Scale(i, z), Scale(j, z')))
  {
    var y :| In(R, F, y) && z == Scale(n, y);
    var y' :| In(R, F, y') && z' == Scale(n, y');
    InScale(R, F, i, y);
    InScale(R, F, j, y');
    InAdd(R, F, Scale(i, y), Scale(j, y'));
    ScaleScale(i, n, y);
    ScaleScale(j, n, y');
    ScaleAdd(n, Scale(i, y), Scale(j, y'));
    assert In(R, F, Add(Scale(i, y), Scale(j, y')));
  }

  /** The equations between two forms and a composite that the four generator products need. */
  predicate ComposedWith(d: Parts, x: Form, y: Form, k: int, l: int, m: int, F: Form) {
    && ArePartsOf(d, x, y)
    && d.s * l == d.t * k - d.h && d.s * m == d.u * k - y.c && d.t * m == d.u * l - x.c
    && F == Form(d.s * d.t, d.w * d.u - (k * d.t + l * d.s), k * l - d.w * m)
  }

  lemma ComposedEquations(x: Form, y: Form, F: Form) returns (d: Parts, k: int, l: int, m: int, X: int, Y: int, Z: int)
    requires Composable(x, y) && ComposesTo(x, y, F)
    ensures ComposedWith(d, x, y, k, l, m, F) && d.s * X + d.t * Y + d.u * Z == 1
  {
    PartsExact(x, y);
    d := PartsOf(x, y);
    X, Y, Z := PartsCoprime(x, y);
    k :| IsMultiplier(d, y.c, k) && F == Composite(d, x.c, k);
    l, m := CompositeExact(d, x, y, k);
    ExchangedMultiplier(d.h, d.s, d.t, d.u, x.c, y.c, k, l, m);
  }

  predicate FitAll(R: Ring, x: Form, y: Form, F: Form) {
    Fits(R, x) && Fits(R, y) && Fits(R, F)
  }

  lemma CompositeHalves(R: Ring, d: Parts, x: Form, y: Form, k: int, l: int, m: int, F: Form)
    requires FitAll(R, x, y, F) && ComposedWith(d, x, y, k, l, m, F)
    ensures Half(R, F) == Half(R, y) - k * d.t && Half(R, F) == Half(R, x) - l * d.s
    ensures Half(R, x) == Half(R, y) - d.h && d.w * d.u == Half(R, x) + Half(R, y) - R.sigma
  {
    HalfExact(R, x);
    HalfExact(R, y);
    HalfExact(R, F);
    assert l * d.s == d.s * l && k * d.t == d.t * k;
  }

  lemma ThetaProducts(R: Ring, d: Parts, x: Form, y: Form, k: int, l: int, m: int, F: Form)
    requires FitAll(R, x, y, F) && ComposedWith(d, x, y, k, l, m, F)
    ensures Mul(R, Theta(R, x), Theta(R, y)) == Scale(d.w, Point(R, F, m, -d.u))
  {
    CompositeHalves(R, d, x, y, k, l, m, F);
    HalfExact(R, y);
    ProductThetas(d.h, d.w, d.s, d.t, d.u, y.c, k, m, Half(R, y), R.sigma, R.nu);
  }

  /** The products of the generators, as multiples of lattice points of the composite. */
  lemma GeneratorProducts(R: Ring, d: Parts, x: Form, y: Form, k: int, l: int, m: int, F: Form)
    requires FitAll(R, x, y, F) && ComposedWith(d, x, y, k, l, m, F)
    ensures Mul(R, Unit(x), Unit(y)) == Scale(d.w, Point(R, F, d.w, 0))
    ensures Mul(R, Unit(x), Theta(R, y)) == Scale(d.w, Point(R, F, -k, d.s))
    ensures Mul(R, Theta(R, x), Unit(y)) == Scale(d.w, Point(R, F, -l, d.t))
    ensures Mul(R, Theta(R, x), Theta(R, y)) == Scale(d.w, Point(R, F, m, -d.u))
  {
    CompositeHalves(R, d, x, y, k, l, m, F);
    ProductUnits(d.w, d.s, d.t);
    ProductUnitTheta(d.w, d.s, d.t, k, Half(R, y));
    ProductUnitTheta(d.w, d.t, d.s, l, Half(R, x));
    SwapFactors(d.s, d.t, l);
    UnitTimes(R, x, y);
    UnitTimes(R, y, x);
    MulCommutes(R, Theta(R, x), Unit(y));
    ThetaProducts(R, d, x, y, k, l, m, F);
  }

  lemma SwapFactors(s: int, t: int, l: int)
    ensures s * t == t * s && -l * (s * t) == -l * (t * s)
  {
  }

  lemma UnitTimes(R: Ring, x: Form, y: Form)
    ensures Mul(R, Unit(x), Unit(y)) == Num(x.a * y.a, 0)
    ensures Mul(R, Unit(x), Theta(R, y)) == Num(x.a * -Half(R, y), x.a)
  {
  }

  lemma ProductUnits(w: int, s: int, t: int)
    ensures (w * s) * (w * t) == w * (w * (s * t))
  {
  }

  lemma ProductUnitTheta(w: int, s: int, t: int, k: int, h: int)
    ensures (w * s) * -h == w * (-k * (s * t) - s * (h - k * t))
  {
    assert s * (h - k * t) == s * h - k * (s * t);
    assert -k * (s * t) == -(k * (s * t));
    assert w * -(s * h) == (w * s) * -h;
  }

  lemma ProductThetas(h: int, w: int, s: int, t: int, u: int, c: int, k: int, m: int, half: int, sigma: int, nu: int)
    requires s * m == u * k - c && w * u == (half - h) + half - sigma
    requires half * half - sigma * half - nu == (w * t) * c
    ensures (-(half - h)) * (-half) + nu == w * (m * (s * t) - (-u) * (half - k * t))
  {
    assert (w * t) * (s * m) == (w * t) * (u * k) - (w * t) * c;
    assert (w * u) * half == half * half + half * half - h * half - sigma * half;
    assert (-(half - h)) * (-half) == half * half - h * half;
    assert (-u) * (half - k * t) == -(u * half) + u * (k * t);
    assert w * (m * (s * t) + u * half - u * (k * t)) == w * (m * (s * t)) + w * (u * half) - w * (u * (k * t));
    assert w * (m * (s * t)) == (w * t) * (s * m) && w * (u * half) == (w * u) * half && w * (u * (k * t)) == (w * t) * (u * k);
  }

  /** Every product of points is a multiple of a point of the composite. */
  lemma ProductInComposite(R: Ring, x: Form, y: Form, F: Form, d: Parts, k: int, l: int, m: int, z: Num)
    requires FitAll(R, x, y, F) && ComposedWith(d, x, y, k, l, m, F) && InProduct(R, x, y, z)
    ensures InMultiple(R, d.w, F, z)
  {
    GeneratorProducts(R, d, x, y, k, l, m, F);
    var v, v' :| InProductBy(R, x, y, z, v, v');
    PointIn(R, F, d.w, 0);
    PointIn(R, F, -k, d.s);
    PointIn(R, F, -l, d.t);
    PointIn(R, F, m, -d.u);
    FactorTimesPoint(R, d.w, F, Unit(x), y, v);
    FactorTimesPoint(R, d.w, F, Theta(R, x), y, v');
    MultipleAdd(R, d.w, F, Mul(R, Unit(x), v), Mul(R, Theta(R, x), v'));
  }

  lemma MultipleAdd(R: Ring, n: int, F: Form, z: Num, z': Num)
    requires InMultiple(R, n, F, z) && InMultiple(R, n, F, z')
    ensures InMultiple(R, n, F, Add(z, z'))
  {
    var y :| In(R, F, y) && z == Scale(n, y);
    var y' :| In(R, F, y') && z' == Scale(n, y');
    InAdd(R, F, y, y');
    ScaleAdd(n, y, y');
  }

  lemma FactorTimesPoint(R: Ring, n: int, F: Form, r: Num, y: Form, v: Num)
    requires In(R, y, v)
    requires InMultiple(R, n, F, Mul(R, r, Unit(y))) && InMultiple(R, n, F, Mul(R, r, Theta(R, y)))
    ensures InMultiple(R, n, F, Mul(R, r, v))
  {
    var i, j :| v == Point(R, y, i, j);
    PointSplits(R, y, i, j);
    MulCombination(R, r, i, Unit(y), j, Theta(R, y));
    MultipleCombination(R, n, F, Mul(R, r, Unit(y)), Mul(R, r, Theta(R, y)), i, j);
  }

  /** w times the point i*a + j*theta of F's lattice is a sum of products. */
  ghost predicate Reaches(R: Ring, x: Form, y: Form, w: int, F: Form, i: int, j: int) {
    InProduct(R, x, y, Scale(w, Point(R, F, i, j)))
  }

  lemma ReachesCombination(R: Ring, x: Form, y: Form, w: int, F: Form, i: int, j: int, i': int, j': int, p: int, q: int)
    requires Reaches(R, x, y, w, F, i, j) && Reaches(R, x, y, w, F, i', j')
    ensures Reaches(R, x, y, w, F, p * i + q * i', p * j + q * j')
  {
    ProductScale(R, x, y, p, Scale(w, Point(R, F, i, j)));
    ProductScale(R, x, y, q, Scale(w, Point(R, F, i', j')));
    ProductAdd(R, x, y, Scale(p, Scale(w, Point(R, F, i, j))), Scale(q, Scale(w, Point(R, F, i', j'))));
    ScaleScale(p, w, Point(R, F, i, j));
    ScaleScale(q, w, Point(R, F, i', j'));
    PointScale(R, F, p, i, j);
    PointScale(R, F, q, i', j');
    PointAdd(R, F, p * i, p * j, q * i', q * j');
    ScaleAdd(w, Point(R, F, p * i, p * j), Point(R, F, q * i', q * j'));
  }

  /** The four generator products reach these coordinates. */
  lemma GeneratorsReach(R: Ring, d: Parts, x: Form, y: Form, k: int, l: int, m: int, F: Form)
    requires FitAll(R, x, y, F) && ComposedWith(d, x, y, k, l, m, F)
    ensures Reaches(R, x, y, d.w, F, d.w, 0) && Reaches(R, x, y, d.w, F, -k, d.s)
    ensures Reaches(R, x, y, d.w, F, -l, d.t) && Reaches(R, x, y, d.w, F, m, -d.u)
  {
    GeneratorProducts(R, d, x, y, k, l, m, F);
    UnitIsPoint(R, x);
    UnitIsPoint(R, y);
    ThetaIsPoint(R, x);
    ThetaIsPoint(R, y);
    ProductOfPoints(R, x, y, Unit(x), Unit(y));
    ProductOfPoints(R, x, y, Unit(x), Theta(R, y));
    ProductOfPoints(R, x, y, Theta(R, x), Unit(y));
    ProductOfPoints(R, x, y, Theta(R, x), Theta(R, y));
  }

  lemma ReachesBy(R: Ring, x: Form, y: Form, w: int, F: Form, i: int, j: int, i': int, j': int, p: int, q: int,
                  I: int, J: int)
    requires Reaches(R, x, y, w, F, i, j) && Reaches(R, x, y, w, F, i', j')
    requires I == p * i + q * i' && J == p * j + q * j'
    ensures Reaches(R, x, y, w, F, I, J)
  {
    ReachesCombination(R, x, y, w, F, i, j, i', j', p, q);
  }

  /** Eliminating the second coordinate pairwise reaches (a, 0), (b, 0) and (c, 0) for the first form. */
  lemma CoefficientsReach(R: Ring, d: Parts, x: Form, y: Form, k: int, l: int, m: int, F: Form)
    requires FitAll(R, x, y, F) && ComposedWith(d, x, y, k, l, m, F)
    ensures Reaches(R, x, y, d.w, F, x.a, 0) && Reaches(R, x, y, d.w, F, x.b, 0) && Reaches(R, x, y, d.w, F, x.c, 0)
  {
    GeneratorsReach(R, d, x, y, k, l, m, F);
    EliminationIdentities(d.h, d.s, d.t, d.u, d.w, x.c, k, l, m);
    ReachesBy(R, x, y, d.w, F, d.w, 0, d.w, 0, d.s, 0, x.a, 0);
    ReachesBy(R, x, y, d.w, F, d.w, 0, d.w, 0, d.u, 0, d.w * d.u, 0);
    ReachesBy(R, x, y, d.w, F, -k, d.s, -l, d.t, d.t, -d.s, -d.h, 0);
    ReachesBy(R, x, y, d.w, F, d.w * d.u, 0, -d.h, 0, 1, 1, x.b, 0);
    ReachesBy(R, x, y, d.w, F, -l, d.t, m, -d.u, -d.u, -d.t, x.c, 0);
  }

  lemma EliminationIdentities(h: int, s: int, t: int, u: int, w: int, c: int, k: int, l: int, m: int)
    requires s * l == t * k - h && t * m == u * l - c
    ensures w * s == s * w + 0 * w && w * u == u * w + 0 * w
    ensures s * 0 + 0 * 0 == 0 && u * 0 + 0 * 0 == 0
    ensures -h == t * -k + -s * -l && 0 == t * s + -s * t
    ensures c == -u * -l + -t * m && 0 == -u * t + -t * -u
  {
  }

  lemma OneReached(R: Ring, d: Parts, x: Form, y: Form, k: int, l: int, m: int, F: Form)
    requires FitAll(R, x, y, F) && ComposedWith(d, x, y, k, l, m, F) && Primitive(x)
    ensures Reaches(R, x, y, d.w, F, 1, 0)
  {
    CoefficientsReach(R, d, x, y, k, l, m, F);
    var p, q, r := PrimitiveBezout(x);
    Combine(p, q, x.a, x.b);
    Combine(1, r, x.a * p + x.b * q, x.c);
    ReachesBy(R, x, y, d.w, F, x.a, 0, x.b, 0, p, q, x.a * p + x.b * q, 0);
    ReachesBy(R, x, y, d.w, F, x.a * p + x.b * q, 0, x.c, 0, 1, r, 1, 0);
  }

  lemma Combine(p: int, q: int, a: int, b: int)
    ensures a * p + b * q == p * a + q * b && p * 0 + q * 0 == 0
  {
  }

  lemma ThetaReached(R: Ring, d: Parts, x: Form, y: Form, k: int, l: int, m: int, F: Form, X: int, Y: int, Z: int)
    requires FitAll(R, x, y, F) && ComposedWith(d, x, y, k, l, m, F)
    requires d.s * X + d.t * Y + d.u * Z == 1 && Reaches(R, x, y, d.w, F, 1, 0)
    ensures Reaches(R, x, y, d.w, F, 0, 1)
  {
    GeneratorsReach(R, d, x, y, k, l, m, F);
    var i := X * -k + Y * -l;
    var e := 1 * i + -Z * m;
    Combine(X, Y, d.s, d.t);
    SecondCoordinate(d.s * X + d.t * Y, d.u, Z, e);
    ReachesBy(R, x, y, d.w, F, -k, d.s, -l, d.t, X, Y, i, d.s * X + d.t * Y);
    ReachesBy(R, x, y, d.w, F, i, d.s * X + d.t * Y, m, -d.u, 1, -Z, e, 1);
    ReachesBy(R, x, y, d.w, F, e, 1, 1, 0, 1, -e, 0, 1);
  }

  lemma SecondCoordinate(n: int, u: int, Z: int, e: int)
    requires n + u * Z == 1
    ensures 1 == 1 * n + -Z * -u
    ensures 0 == 1 * e + -e * 1 && 1 == 1 * 1 + -e * 0
  {
  }

  /** For a primitive first form the product is all of w times the lattice of the composite. */
  lemma CompositeInProduct(R: Ring, x: Form, y: Form, F: Form, d: Parts, k: int, l: int, m: int,
                           X: int, Y: int, Z: int, v: Num)
    requires FitAll(R, x, y, F) && ComposedWith(d, x, y, k, l, m, F) && Primitive(x)
    requires d.s * X + d.t * Y + d.u * Z == 1 && In(R, F, v)
    ensures InProduct(R, x, y, Scale(d.w, v))
  {
    OneReached(R, d, x, y, k, l, m, F);
    ThetaReached(R, d, x, y, k, l, m, F, X, Y, Z);
    var i, j :| v == Point(R, F, i, j);
    UnitCombination(i, j);
    ReachesBy(R, x, y, d.w, F, 1, 0, 0, 1, i, j, i, j);
  }

  lemma UnitCombination(i: int, j: int)
    ensures i == i * 1 + j * 0 && j == i * 0 + j * 1
  {
  }

  /** The product of the lattices of x and y is exactly w times the lattice of F. */
  ghost predicate ProductIs(R: Ring, x: Form, y: Form, w: int, F: Form) {
    w > 0 && forall z :: InProduct(R, x, y, z) <==> InMultiple(R, w, F, z)
  }

  lemma ProductOfLattices(R: Ring, x: Form, y: Form, F: Form) returns (w: int)
    requires Composable(x, y) && Primitive(x) && ComposesTo(x, y, F) && FitAll(R, x, y, F)
    ensures ProductIs(R, x, y, w, F)
  {
    var d, k, l, m, X, Y, Z := ComposedEquations(x, y, F);
    w := d.w;
    forall z ensures InProduct(R, x, y, z) <==> InMultiple(R, w, F, z) {
      if InProduct(R, x, y, z) {
        ProductInComposite(R, x, y, F, d, k, l, m, z);
      }
      if InMultiple(R, w, F, z) {
        var v :| In(R, F, v) && z == Scale(w, v);
        CompositeInProduct(R, x, y, F, d, k, l, m, X, Y, Z, v);
      }
    }
  }

  lemma MultipleOf(R: Ring, x: Form, y: Form, w: int, F: Form, z: Num) returns (v: Num)
    requires ProductIs(R, x, y, w, F) && InProduct(R, x, y, z)
    ensures In(R, F, v) && z == Scale(w, v)
  {
    assert InMultiple(R, w, F, z);
    v :| In(R, F, v) && z == Scale(w, v);
  }

  lemma ProductOf(R: Ring, x: Form, y: Form, w: int, F: Form, v: Num) returns (p: Num, q: Num)
    requires ProductIs(R, x, y, w, F) && In(R, F, v)
    ensures InProductBy(R, x, y, Scale(w, v), p, q)
  {
    assert InMultiple(R, w, F, Scale(w, v));
    p, q :| InProductBy(R, x, y, Scale(w, v), p, q);
  }

  // ----- composition is well defined on classes -----

  lemma MulFour(R: Ring, a: Num, c: Num, u: Num, v: Num)
    ensures Mul(R, Mul(R, a, c), Mul(R, u, v)) == Mul(R, Mul(R, a, u), Mul(R, c, v))
  {
    MulAssociates(R, a, c, Mul(R, u, v));
    MulAssociates(R, c, u, v);
    MulCommutes(R, c, u);
    MulAssociates(R, u, c, v);
    MulAssociates(R, a, u, Mul(R, c, v));
  }

  /** Homothetic factors have homothetic products. */
  lemma TransportTerm(R: Ring, f: Form, g: Form, f': Form, g': Form,
                      alpha: Num, beta: Num, gamma: Num, delta: Num, u: Num, v: Num) returns (z: Num)
    requires Covers(R, alpha, f, beta, f') && Covers(R, gamma, g, delta, g')
    requires In(R, f, u) && In(R, g, v)
    ensures InProduct(R, f', g', z)
    ensures Mul(R, Mul(R, alpha, gamma), Mul(R, u, v)) == Mul(R, Mul(R, beta, delta), z)
  {
    assert Matches(R, alpha, u, beta, f') && Matches(R, gamma, v, delta, g');
    var p :| In(R, f', p) && Mul(R, alpha, u) == Mul(R, beta, p);
    var q :| In(R, g', q) && Mul(R, gamma, v) == Mul(R, delta, q);
    MulFour(R, alpha, gamma, u, v);
    MulFour(R, beta, delta, p, q);
    ProductOfPoints(R, f', g', p, q);
    z := Mul(R, p, q);
  }

  lemma TransportProduct(R: Ring, f: Form, g: Form, f': Form, g': Form,
                         alpha: Num, beta: Num, gamma: Num, delta: Num, z: Num) returns (z': Num)
    requires Covers(R, alpha, f, beta, f') && Covers(R, gamma, g, delta, g') && InProduct(R, f, g, z)
    ensures InProduct(R, f', g', z')
    ensures Mul(R, Mul(R, alpha, gamma), z) == Mul(R, Mul(R, beta, delta), z')
  {
    var v, w :| InProductBy(R, f, g, z, v, w);
    UnitIsPoint(R, f);
    ThetaIsPoint(R, f);
    var p := TransportTerm(R, f, g, f', g', alpha, beta, gamma, delta, Unit(f), v);
    var q := TransportTerm(R, f, g, f', g', alpha, beta, gamma, delta, Theta(R, f), w);
    MulDistributes(R, Mul(R, alpha, gamma), Mul(R, Unit(f), v), Mul(R, Theta(R, f), w));
    MulDistributes(R, Mul(R, beta, delta), p, q);
    ProductAdd(R, f', g', p, q);
    z' := Add(p, q);
  }

  lemma CompositesCover(R: Ring, f: Form, g: Form, f': Form, g': Form,
                        alpha: Num, beta: Num, gamma: Num, delta: Num, w: int, F: Form, w': int, F': Form)
    requires Covers(R, alpha, f, beta, f') && Covers(R, gamma, g, delta, g')
    requires ProductIs(R, f, g, w, F) && ProductIs(R, f', g', w', F')
    ensures Covers(R, Scale(w, Mul(R, alpha, gamma)), F, Scale(w', Mul(R, beta, delta)), F')
  {
    forall u | In(R, F, u)
      ensures Matches(R, Scale(w, Mul(R, alpha, gamma)), u, Scale(w', Mul(R, beta, delta)), F')
    {
      var p, q := ProductOf(R, f, g, w, F, u);
      var z := TransportProduct(R, f, g, f', g', alpha, beta, gamma, delta, Scale(w, u));
      var v := MultipleOf(R, f', g', w', F', z);
      ScaleMoves(R, w, Mul(R, alpha, gamma), u);
      ScaleMoves(R, w', Mul(R, beta, delta), v);
      MatchesBy(R, Scale(w, Mul(R, alpha, gamma)), u, Scale(w', Mul(R, beta, delta)), F', v);
    }
  }

  lemma NonzeroScale(n: int, z: Num)
    requires n > 0 && Nonzero(z)
    ensures Nonzero(Scale(n, z))
  {
  }

  lemma CompositesHomothetic(R: Ring, f: Form, g: Form, f': Form, g': Form, w: int, F: Form, w': int, F': Form)
    requires Definite(R) && Homothetic(R, f, f') && Homothetic(R, g, g')
    requires ProductIs(R, f, g, w, F) && ProductIs(R, f', g', w', F')
    ensures Homothetic(R, F, F')
  {
    var alpha, beta :| HomotheticBy(R, f, f', alpha, beta);
    var gamma, delta :| HomotheticBy(R, g, g', gamma, delta);
    CompositesCover(R, f, g, f', g', alpha, beta, gamma, delta, w, F, w', F');
    CompositesCover(R, f', g', f, g, beta, alpha, delta, gamma, w', F', w, F);
    NonzeroMul(R, alpha, gamma);
    NonzeroMul(R, beta, delta);
    NonzeroScale(w, Mul(R, alpha, gamma));
    NonzeroScale(w', Mul(R, beta, delta));
    assert HomotheticBy(R, F, F', Scale(w, Mul(R, alpha, gamma)), Scale(w', Mul(R, beta, delta)));
  }

  // ----- composites of primitive forms are primitive -----

  /** The composite takes every product of values of its factors. */
  lemma ValuesMultiply(R: Ring, d: Parts, x: Form, y: Form, k: int, l: int, m: int, F: Form, i: int, j: int,
                       i': int, j': int)
    returns (I: int, J: int)
    requires FitAll(R, x, y, F) && ComposedWith(d, x, y, k, l, m, F)
    ensures Value(F, I, J) == Value(x, i, -j) * Value(y, i', -j')
  {
    var u, v := Point(R, x, i, j), Point(R, y, i', j');
    PointIn(R, x, i, j);
    PointIn(R, y, i', j');
    ProductOfPoints(R, x, y, u, v);
    ProductInComposite(R, x, y, F, d, k, l, m, Mul(R, u, v));
    var z :| In(R, F, z) && Mul(R, u, v) == Scale(d.w, z);
    var p, q :| z == Point(R, F, p, q);
    I, J := p, -q;
    NormMul(R, u, v);
    PointNorm(R, x, i, j);
    PointNorm(R, y, i', j');
    PointNorm(R, F, p, q);
    NormScale(R, d.w, z);
    CancelLeading(d.w, d.s, d.t, Value(x, i, -j), Value(y, i', -j'), Value(F, p, -q));
  }

  lemma NormScale(R: Ring, n: int, z: Num)
    ensures Norm(R, Scale(n, z)) == (n * n) * Norm(R, z)
  {
    NormScaleCoordinates(R.sigma, R.nu, n, z.x, z.y);
  }

  lemma NormScaleCoordinates(s: int, v: int, n: int, x: int, y: int)
    ensures (n * x) * (n * x) + s * ((n * x) * (n * y)) - v * ((n * y) * (n * y))
         == (n * n) * (x * x + s * (x * y) - v * (y * y))
  {
    assert (n * x) * (n * x) == (n * n) * (x * x) && (n * y) * (n * y) == (n * n) * (y * y);
    assert (n * x) * (n * y) == (n * n) * (x * y);
    assert s * ((n * n) * (x * y)) == (n * n) * (s * (x * y)) && v * ((n * n) * (y * y)) == (n * n) * (v * (y * y));
    Algebra.TripleScaled(n * n, x * x, v * (y * y), s * (x * y));
  }

  lemma CancelLeading(w: int, s: int, t: int, v: int, v': int, V: int)
    requires w > 0 && s > 0 && t > 0
    requires ((w * s) * v) * ((w * t) * v') == (w * w) * ((s * t) * V)
    ensures V == v * v'
  {
    PositiveProduct(w, w);
    PositiveProduct(s, t);
    Algebra.PairMonomials(w, w, s, v, t, v');
    CancelLeft(w * w, (s * t) * (v * v'), (s * t) * V);
    CancelLeft(s * t, v * v', V);
  }

  /** If e divides V times each of three values of a primitive form, it divides V. */
  lemma ContentStep(x: Form, e: int, V: int)
    requires Primitive(x) && e > 0
    requires (Value(x, 1, -0) * V) % e == 0 && (Value(x, 0, -1) * V) % e == 0 && (Value(x, 1, -1) * V) % e == 0
    ensures V % e == 0
  {
    var i, j, k := PrimitiveBezout(x);
    ThreeValues(x.a, x.b, x.c, V);
    DividesSum(x.a * V, x.c * V, e);
    DividesSum(x.a * V + x.c * V, (x.a - x.b + x.c) * V, e);
    DividesMultiple(x.a * V, i, e);
    DividesMultiple(x.b * V, j, e);
    DividesMultiple(x.c * V, k, e);
    DividesSum((x.a * V) * i, (x.b * V) * j, e);
    DividesSum((x.a * V) * i + (x.b * V) * j, (x.c * V) * k, e);
    CombineScaled(x.a, x.b, x.c, i, j, k, V);
  }

  lemma ThreeValues(a: int, b: int, c: int, V: int)
    ensures a * 1 * 1 + b * 1 * -0 + c * -0 * -0 == a
    ensures a * 0 * 0 + b * 0 * -1 + c * -1 * -1 == c
    ensures a * 1 * 1 + b * 1 * -1 + c * -1 * -1 == a - b + c
    ensures a * V + c * V - (a - b + c) * V == b * V
  {
  }

  lemma CombineScaled(a: int, b: int, c: int, i: int, j: int, k: int, V: int)
    requires a * i + b * j + c * k == 1
    ensures (a * V) * i + (b * V) * j + (c * V) * k == V
  {
    assert (a * i + b * j + c * k) * V == (a * V) * i + (b * V) * j + (c * V) * k;
  }

  lemma ValueDivisible(F: Form, e: int, x: int, y: int)
    requires e > 0 && F.a % e == 0 && F.b % e == 0 && F.c % e == 0
    ensures Value(F, x, y) % e == 0
  {
    DividesMultiple(F.a, x, e);
    DividesMultiple(F.a * x, x, e);
    DividesMultiple(F.b, x, e);
    DividesMultiple(F.b * x, y, e);
    DividesMultiple(F.c, y, e);
    DividesMultiple(F.c * y, y, e);
    DividesSum(F.a * x * x, F.b * x * y, e);
    DividesSum(F.a * x * x + F.b * x * y, F.c * y * y, e);
  }

  lemma CompositePrimitive(R: Ring, x: Form, y: Form, F: Form)
    requires Composable(x, y) && Primitive(x) && Primitive(y) && ComposesTo(x, y, F) && FitAll(R, x, y, F)
    ensures Primitive(F)
  {
    var d, k, l, m, X, Y, Z := ComposedEquations(x, y, F);
    ComposesToKeeps(x, y, F);
    var e' := AllInputValueGCD(F.b, F.c);
    var e := AllInputValueGCD(F.a, e');
    DivisorOfPart(F.b, F.c, e', e);
    ValueOfSecond(R, d, x, y, k, l, m, F, e, 1, 0);
    ValueOfSecond(R, d, x, y, k, l, m, F, e, 0, 1);
    ValueOfSecond(R, d, x, y, k, l, m, F, e, 1, 1);
    OneDividedBy(y, e);
    DivisorOfOne(e);
  }

  lemma ValueOfSecond(R: Ring, d: Parts, x: Form, y: Form, k: int, l: int, m: int, F: Form, e: int, i: int, j: int)
    requires FitAll(R, x, y, F) && ComposedWith(d, x, y, k, l, m, F) && Primitive(x)
    requires e > 0 && F.a % e == 0 && F.b % e == 0 && F.c % e == 0
    ensures Value(y, i, -j) % e == 0
  {
    var I, J := ValuesMultiply(R, d, x, y, k, l, m, F, 1, 0, i, j);
    ValueDivisible(F, e, I, J);
    I, J := ValuesMultiply(R, d, x, y, k, l, m, F, 0, 1, i, j);
    ValueDivisible(F, e, I, J);
    I, J := ValuesMultiply(R, d, x, y, k, l, m, F, 1, 1, i, j);
    ValueDivisible(F, e, I, J);
    ContentStep(x, e, Value(y, i, -j));
  }

  lemma OneDividedBy(y: Form, e: int)
    requires Primitive(y) && e > 0
    requires Value(y, 1, -0) % e == 0 && Value(y, 0, -1) % e == 0 && Value(y, 1, -1) % e == 0
    ensures 1 % e == 0
  {
    DividesMultiple(Value(y, 1, -0), 1, e);
    DividesMultiple(Value(y, 0, -1), 1, e);
    DividesMultiple(Value(y, 1, -1), 1, e);
    ContentStep(y, e, 1);
  }

  lemma EquivalentPrimitive(f: Form, g: Form)
    requires PositiveDefinite(f) && Primitive(f) && Equivalent(f, g)
    ensures Primitive(g)
  {
    EquivalentKeeps(f, g);
    EquivalentSymmetric(f, g);
    var m: Substitution :| Proper(m) && Substitute(g, m) == f;
    var e' := AllInputValueGCD(g.b, g.c);
    var e := AllInputValueGCD(g.a, e');
    DivisorOfPart(g.b, g.c, e', e);
    ValueAfter(g, m, 1, -0);
    ValueAfter(g, m, 0, -1);
    ValueAfter(g, m, 1, -1);
    ValueDivisible(g, e, m.p * 1 + m.q * -0, m.r * 1 + m.s * -0);
    ValueDivisible(g, e, m.p * 0 + m.q * -1, m.r * 0 + m.s * -1);
    ValueDivisible(g, e, m.p * 1 + m.q * -1, m.r * 1 + m.s * -1);
    OneDividedBy(f, e);
    DivisorOfOne(e);
  }

  // ----- the group laws -----

  lemma CompositesEquivalent(R: Ring, f: Form, g: Form, x: Form, y: Form, F: Form, G: Form)
    requires Composable(f, g) && Composable(x, y) && Primitive(f) && Primitive(x)
    requires ComposesTo(f, g, F) && ComposesTo(x, y, G) && FitAll(R, f, g, F) && FitAll(R, x, y, G)
    requires Homothetic(R, f, x) && Homothetic(R, g, y) && PositiveDefinite(F) && PositiveDefinite(G)
    ensures Canonical(F) == Canonical(G)
  {
    var w := ProductOfLattices(R, f, g, F);
    var w' := ProductOfLattices(R, x, y, G);
    CompositesHomothetic(R, f, g, x, y, w, F, w', G);
    HomotheticIsEquivalent(R, F, G);
    ReductionDecidesEquivalence(G, F);
  }

  /** Composition may be computed from any representatives of the two classes. */
  lemma ComposeWellDefined(f: Form, g: Form, F: Form)
    requires Composable(f, g) && Primitive(f) && Primitive(g) && ComposesTo(f, g, F)
    ensures PositiveDefinite(F) && Canonical(F) == Compose(f, g)
  {
    var R := RingOf(f);
    RingFits(f);
    ComposesToKeeps(f, g, F);
    var x, y := Canonical(f), Canonical(g);
    EquivalentPrimitive(f, x);
    HomotheticCanonical(R, f);
    HomotheticCanonical(R, g);
    var G := CompositeOfCanonicals(f, g);
    CompositesEquivalent(R, f, g, x, y, F, G);
  }

  lemma CompositeOfCanonicals(f: Form, g: Form) returns (G: Form)
    requires Composable(f, g)
    ensures ComposesTo(Canonical(f), Canonical(g), G)
    ensures PositiveDefinite(G) && Discriminant(G) == Discriminant(f) && Canonical(G) == Compose(f, g)
  {
    var x, y := Canonical(f), Canonical(g);
    ComposesToExists(x, y);
    G :| ComposesTo(x, y, G);
    CompositeClassIs(x, y, G);
    ComposesToKeeps(x, y, G);
  }

  /** Some composite of f and g, with everything known about it. */
  lemma ComposeOnce(f: Form, g: Form) returns (F: Form)
    requires Composable(f, g) && Primitive(f) && Primitive(g)
    ensures ComposesTo(f, g, F) && PositiveDefinite(F) && Discriminant(F) == Discriminant(f)
    ensures Primitive(F) && Canonical(F) == Compose(f, g)
  {
    ComposesToExists(f, g);
    F :| ComposesTo(f, g, F);
    ComposeWellDefined(f, g, F);
    ComposesToKeeps(f, g, F);
    RingFits(f);
    CompositePrimitive(RingOf(f), f, g, F);
  }

  lemma ComposePrimitive(f: Form, g: Form)
    requires Composable(f, g) && Primitive(f) && Primitive(g)
    ensures Primitive(Compose(f, g))
  {
    var F := ComposeOnce(f, g);
    EquivalentPrimitive(F, Canonical(F));
  }

  /** Regrouping a triple product: h*(f*g) inside f*(g*h). */
  lemma RegroupProduct(R: Ring, f: Form, g: Form, h: Form, w: int, F: Form, w2: int, G: Form,
                       w': int, F': Form, w2': int, G': Form)
    requires ProductIs(R, f, g, w, F) && ProductIs(R, h, F, w2, G)
    requires ProductIs(R, h, g, w', F') && ProductIs(R, f, F', w2', G')
    ensures Covers(R, Num(w * w2, 0), G, Num(w' * w2', 0), G')
  {
    forall u | In(R, G, u) ensures Matches(R, Num(w * w2, 0), u, Num(w' * w2', 0), G') {
      var v := RegroupPoint(R, f, g, h, w, F, w2, G, w', F', w2', G', u);
      ScaleIsMul(R, w * w2, u);
      ScaleIsMul(R, w' * w2', v);
      MatchesBy(R, Num(w * w2, 0), u, Num(w' * w2', 0), G', v);
    }
  }

  lemma ScaleIsMul(R: Ring, n: int, u: Num)
    ensures Mul(R, Num(n, 0), u) == Scale(n, u)
  {
  }

  lemma RegroupPoint(R: Ring, f: Form, g: Form, h: Form, w: int, F: Form, w2: int, G: Form,
                     w': int, F': Form, w2': int, G': Form, u: Num) returns (v: Num)
    requires ProductIs(R, f, g, w, F) && ProductIs(R, h, F, w2, G)
    requires ProductIs(R, h, g, w', F') && ProductIs(R, f, F', w2', G')
    requires In(R, G, u)
    ensures In(R, G', v) && Scale(w * w2, u) == Scale(w' * w2', v)
  {
    var p, q := ProductOf(R, h, F, w2, G, u);
    var p1, p2 := ProductOf(R, f, g, w, F, p);
    var q1, q2 := ProductOf(R, f, g, w, F, q);
    var H, T, A, B := Unit(h), Theta(R, h), Unit(f), Theta(R, f);
    var z1 := Add(Mul(R, H, p1), Mul(R, T, q1));
    var z2 := Add(Mul(R, H, p2), Mul(R, T, q2));
    assert InProductBy(R, h, g, z1, p1, q1) && InProductBy(R, h, g, z2, p2, q2);
    var y1 := MultipleOf(R, h, g, w', F', z1);
    var y2 := MultipleOf(R, h, g, w', F', z2);
    var z := Add(Mul(R, A, y1), Mul(R, B, y2));
    assert InProductBy(R, f, F', z, y1, y2);
    v := MultipleOf(R, f, F', w2', G', z);
    ScaledCombination(R, w, H, p, T, q);
    ScaledCombination(R, w', A, y1, B, y2);
    ExchangeSums(R, H, T, A, B, p1, p2, q1, q2);
    ScaleScale(w, w2, u);
    ScaleScale(w', w2', v);
  }

  lemma ScaledCombination(R: Ring, n: int, H: Num, p: Num, T: Num, q: Num)
    ensures Scale(n, Add(Mul(R, H, p), Mul(R, T, q))) == Add(Mul(R, H, Scale(n, p)), Mul(R, T, Scale(n, q)))
  {
    ScaleAdd(n, Mul(R, H, p), Mul(R, T, q));
    MulScale(R, n, H, p);
    MulScale(R, n, T, q);
  }

  lemma ExchangeSums(R: Ring, H: Num, T: Num, A: Num, B: Num, p1: Num, p2: Num, q1: Num, q2: Num)
    ensures Add(Mul(R, H, Add(Mul(R, A, p1), Mul(R, B, p2))), Mul(R, T, Add(Mul(R, A, q1), Mul(R, B, q2))))
         == Add(Mul(R, A, Add(Mul(R, H, p1), Mul(R, T, q1))), Mul(R, B, Add(Mul(R, H, p2), Mul(R, T, q2))))
  {
    MulDistributes(R, H, Mul(R, A, p1), Mul(R, B, p2));
    MulDistributes(R, T, Mul(R, A, q1), Mul(R, B, q2));
    MulDistributes(R, A, Mul(R, H, p1), Mul(R, T, q1));
    MulDistributes(R, B, Mul(R, H, p2), Mul(R, T, q2));
    MulExchange(R, H, A, p1);
    MulExchange(R, H, B, p2);
    MulExchange(R, T, A, q1);
    MulExchange(R, T, B, q2);
  }

  lemma MulExchange(R: Ring, a: Num, b: Num, c: Num)
    ensures Mul(R, a, Mul(R, b, c)) == Mul(R, b, Mul(R, a, c))
  {
    MulAssociates(R, a, b, c);
    MulCommutes(R, a, b);
    MulAssociates(R, b, a, c);
  }

  /** Composites of three forms, grouped either way, are homothetic. */
  lemma TripleHomothetic(R: Ring, f: Form, g: Form, h: Form, F: Form, G: Form, F': Form, G': Form)
    requires Composable(f, g) && Composable(g, h) && Primitive(f) && Primitive(g) && Primitive(h)
    requires Fits(R, f) && Fits(R, g) && Fits(R, h) && Fits(R, F) && Fits(R, G) && Fits(R, F') && Fits(R, G')
    requires ComposesTo(f, g, F) && ComposesTo(h, g, F')
    requires Composable(h, F) && ComposesTo(h, F, G) && Composable(f, F') && ComposesTo(f, F', G')
    ensures Homothetic(R, G, G')
  {
    var w := ProductOfLattices(R, f, g, F);
    var w2 := ProductOfLattices(R, h, F, G);
    var w' := ProductOfLattices(R, h, g, F');
    var w2' := ProductOfLattices(R, f, F', G');
    RegroupProduct(R, f, g, h, w, F, w2, G, w', F', w2', G');
    RegroupProduct(R, h, g, f, w', F', w2', G', w, F, w2, G);
    PositiveProduct(w, w2);
    PositiveProduct(w', w2');
    assert HomotheticBy(R, G, G', Num(w * w2, 0), Num(w' * w2', 0));
  }

  lemma TripleCanonical(f: Form, g: Form, h: Form, F: Form, G: Form, F': Form, G': Form)
    requires Composable(f, g) && Composable(g, h) && Primitive(f) && Primitive(g) && Primitive(h)
    requires Composable(h, F) && Composable(f, F') && Composable(f, G) && Composable(f, G')
    requires ComposesTo(f, g, F) && ComposesTo(h, g, F') && ComposesTo(h, F, G) && ComposesTo(f, F', G')
    ensures Canonical(G) == Canonical(G')
  {
    var R := RingOf(f);
    RingFits(f);
    TripleHomothetic(R, f, g, h, F, G, F', G');
    HomotheticIsEquivalent(R, G, G');
    ReductionDecidesEquivalence(G', G);
  }

  /** Composition of classes is associative. */
  lemma ComposeAssociates(f: Form, g: Form, h: Form)
    requires Composable(f, g) && Composable(g, h) && Primitive(f) && Primitive(g) && Primitive(h)
    ensures Compose(Compose(f, g), h) == Compose(f, Compose(g, h))
  {
    var F := ComposeOnce(f, g);
    var F' := ComposeOnce(h, g);
    var G := ComposeOnce(h, F);
    var G' := ComposeOnce(f, F');
    TripleCanonical(f, g, h, F, G, F', G');
    ComposeCommutes(h, g);
    ComposeOfCanonical(h, F);
    ComposeOfCanonical(f, F');
    ComposeCommutes(h, Compose(f, g));
  }

  /** Composition depends only on the class of its second argument. */
  lemma ComposeOfCanonical(f: Form, g: Form)
    requires Composable(f, g)
    ensures Compose(f, Canonical(g)) == Compose(f, g)
  {
    EquivalentReflexive(Canonical(g));
    CanonicalUnique(Canonical(g), Canonical(g));
  }
}
