/** Composition of positive definite forms of one discriminant: the source's multiply, proved total,
    and its laws. */
module Composition {
  import opened Integers
  import opened Options
  import opened Forms
  import opened Congruence

  predicate Composable(x: Form, y: Form) {
    PositiveDefinite(x) && PositiveDefinite(y) && Discriminant(x) == Discriminant(y)
  }

  /** The numbers h, w, s, t and u that multiply derives from two forms. */
  datatype Parts = Parts(h: int, w: int, s: int, t: int, u: int)

  /** Definition of the parts by their equations; DivisionParts shows the source's divisions satisfy it. */
  predicate ArePartsOf(d: Parts, x: Form, y: Form) {
    && d.w > 0 && d.s > 0 && d.t > 0
    && x.a == d.w * d.s && y.a == d.w * d.t
    && x.b == d.w * d.u - d.h && y.b == d.w * d.u + d.h
    && d.u * d.h == d.t * y.c - d.s * x.c
  }

  lemma SameParity(b: int, b': int, n: int)
    requires b' * b' - b * b == 4 * n
    ensures (b + b') % 2 == 0 && (b' - b) % 2 == 0
  {
    if (b' - b) % 2 != 0 {
      var p, q := (b' - b) / 2, (b + b') / 2;
      assert b' - b == 2 * p + 1 && b + b' == 2 * q + 1;
      OddProduct(p, q);
      DifferenceOfSquares(b, b');
      assert false;
    }
  }

  lemma OddProduct(p: int, q: int)
    ensures (2 * p + 1) * (2 * q + 1) == 2 * (2 * (p * q) + p + q) + 1
  {
  }

  lemma DifferenceOfSquares(b: int, b': int)
    ensures (b' - b) * (b + b') == b' * b' - b * b
  {
  }

  /** The half sum and the half difference in multiply are exact. */
  lemma HalvesExact(x: Form, y: Form)
    requires Composable(x, y)
    ensures var g, h := FloorDivision(x.b + y.b, 2), FloorDivision(y.b - x.b, 2);
            x.b == g - h && y.b == g + h && g * h == y.a * y.c - x.a * x.c
  {
    HalvesOfEqualDiscriminant(x.b, y.b, x.a * x.c, y.a * y.c);
  }

  lemma HalvesOfEqualDiscriminant(b: int, b': int, n: int, n': int)
    requires b' * b' - 4 * n' == b * b - 4 * n
    ensures var g, h := (b + b') / 2, (b' - b) / 2; b == g - h && b' == g + h && g * h == n' - n
  {
    SameParity(b, b', n' - n);
    HalfDifference((b + b') / 2, (b' - b) / 2, n, n');
  }

  /** The parts as multiply computes them. */
  function PartsOf(x: Form, y: Form): Parts
    requires x.a > 0 && y.a > 0
  {
    var g := FloorDivision(x.b + y.b, 2);
    var h := FloorDivision(y.b - x.b, 2);
    var w := AllInputValueGCD(x.a, AllInputValueGCD(y.a, g));
    Parts(h, w, FloorDivision(x.a, w), FloorDivision(y.a, w), FloorDivision(g, w))
  }

  /** The three divisions by w in multiply are exact. */
  lemma PartsExact(x: Form, y: Form)
    requires Composable(x, y)
    ensures ArePartsOf(PartsOf(x, y), x, y)
  {
    HalvesExact(x, y);
    var g := FloorDivision(x.b + y.b, 2);
    var w1 := AllInputValueGCD(y.a, g);
    var w := AllInputValueGCD(x.a, w1);
    var d := PartsOf(x, y);
    DividesTrans(y.a, w1, w);
    DividesTrans(g, w1, w);
    DivElim(x.a, w);
    DivElim(y.a, w);
    DivElim(g, w);
    PositiveCofactor(w, d.s);
    PositiveCofactor(w, d.t);
    CancelCommon(w, d.s, d.t, d.u, x.c, y.c, d.h);
  }

  /** The parts s, t and u have no common factor. */
  lemma PartsCoprime(x: Form, y: Form) returns (X: int, Y: int, Z: int)
    requires Composable(x, y)
    ensures var d := PartsOf(x, y); d.s * X + d.t * Y + d.u * Z == 1
  {
    HalvesExact(x, y);
    PartsExact(x, y);
    var g := FloorDivision(x.b + y.b, 2);
    var p, q := GcdBezout(x.a, AllInputValueGCD(y.a, g));
    var p', q' := GcdBezout(y.a, g);
    X, Y, Z := p, p' * q, q' * q;
    var d := PartsOf(x, y);
    assert g == d.w * d.u;
    BezoutOfThree(d.w, d.s, d.t, d.u, p, q, p', q');
  }

  lemma PositiveCofactor(w: int, s: int)
    requires w > 0 && w * s > 0
    ensures s > 0
  {
  }

  lemma HalfDifference(g: int, h: int, n: int, n': int)
    requires (g + h) * (g + h) - 4 * n' == (g - h) * (g - h) - 4 * n
    ensures g * h == n' - n
  {
    assert (g + h) * (g + h) - (g - h) * (g - h) == 4 * (g * h);
  }

  lemma CancelCommon(w: int, s: int, t: int, u: int, c: int, c': int, h: int)
    requires w > 0 && (w * u) * h == (w * t) * c' - (w * s) * c
    ensures u * h == t * c' - s * c
  {
    MulAssoc(w, u, h);
    MulAssoc(w, t, c');
    MulAssoc(w, s, c);
    assert w * (t * c' - s * c) == w * (t * c') - w * (s * c);
    CancelLeft(w, u * h, t * c' - s * c);
  }

  lemma BezoutOfThree(w: int, s: int, t: int, u: int, p: int, q: int, p': int, q': int)
    requires w > 0 && w == (w * s) * p + ((w * t) * p' + (w * u) * q') * q
    ensures s * p + t * (p' * q) + u * (q' * q) == 1
  {
    assert (w * s) * p == w * (s * p);
    assert (w * t) * p' * q == w * (t * (p' * q));
    assert (w * u) * q' * q == w * (u * (q' * q));
    assert ((w * t) * p' + (w * u) * q') * q == (w * t) * p' * q + (w * u) * q' * q;
    assert w * (s * p + t * (p' * q) + u * (q' * q)) == w * (s * p) + w * (t * (p' * q)) + w * (u * (q' * q));
    CancelLeft(w, s * p + t * (p' * q) + u * (q' * q), 1);
  }

  // ----- the two congruences that determine the composed form -----

  /** The congruences that multiply solves for k, modulo s. */
  predicate IsMultiplier(d: Parts, c: int, k: int)
    requires d.s > 0
  {
    Solves(d.t, d.h, d.s, k) && Solves(d.u, c, d.s, k)
  }

  /** The form multiply builds from k, before it is reduced. */
  function Composite(d: Parts, c: int, k: int): Form
    requires d.s > 0 && d.t > 0
  {
    var l := FloorDivision(d.t * k - d.h, d.s);
    PositiveProduct(d.s, d.t);
    var m := FloorDivision(d.t * d.u * k - d.h * d.u - d.s * c, d.s * d.t);
    Form(d.s * d.t, d.w * d.u - (k * d.t + l * d.s), k * l - d.w * m)
  }

  lemma MultiplierExists(d: Parts, x: Form, y: Form, X: int, Y: int, Z: int) returns (k: int)
    requires ArePartsOf(d, x, y) && d.s * X + d.t * Y + d.u * Z == 1
    ensures IsMultiplier(d, y.c, k)
  {
    k := d.h * Y + y.c * Z;
    MultiplierIdentities(d.h, d.s, d.t, d.u, x.c, y.c, X, Y, Z);
    DivIntro(d.t * k - d.h, d.s, x.c * Z - d.h * X);
    DivIntro(d.u * k - y.c, d.s, -(y.c * X) - x.c * Y);
  }

  lemma MultiplierIdentities(h: int, s: int, t: int, u: int, c: int, c': int, X: int, Y: int, Z: int)
    requires u * h == t * c' - s * c && s * X + t * Y + u * Z == 1
    ensures t * (h * Y + c' * Z) - h == s * (c * Z - h * X)
    ensures u * (h * Y + c' * Z) - c' == s * (-(c' * X) - c * Y)
  {
    assert h * (s * X + t * Y + u * Z) == h && c' * (s * X + t * Y + u * Z) == c';
    assert h * (s * X + t * Y + u * Z) == s * (h * X) + t * (h * Y) + (u * h) * Z;
    assert c' * (s * X + t * Y + u * Z) == s * (c' * X) + (t * c') * Y + u * (c' * Z);
    assert (t * c' - s * c) * Z == t * (c' * Z) - s * (c * Z);
    assert (u * h) * Y == (t * c') * Y - s * (c * Y);
    assert t * (h * Y + c' * Z) == t * (h * Y) + t * (c' * Z);
    assert u * (h * Y + c' * Z) == (u * h) * Y + u * (c' * Z);
    assert s * (c * Z - h * X) == s * (c * Z) - s * (h * X);
    assert s * (-(c' * X) - c * Y) == -(s * (c' * X)) - s * (c * Y);
  }

  /** Any two multipliers differ by a multiple of s. */
  lemma MultipliersCongruent(d: Parts, c: int, k: int, k': int, X: int, Y: int, Z: int)
    requires d.s > 0 && d.s * X + d.t * Y + d.u * Z == 1
    requires IsMultiplier(d, c, k) && IsMultiplier(d, c, k')
    ensures (k' - k) % d.s == 0
  {
    var e := k' - k;
    DividesSum(d.t * k' - d.h, d.t * k - d.h, d.s);
    assert (d.t * k' - d.h) - (d.t * k - d.h) == d.t * e;
    DividesSum(d.u * k' - c, d.u * k - c, d.s);
    assert (d.u * k' - c) - (d.u * k - c) == d.u * e;
    DivIntro(d.s * (X * e), d.s, X * e);
    DividesMultiple(d.t * e, Y, d.s);
    DividesMultiple(d.u * e, Z, d.s);
    DividesSum(d.s * (X * e), (d.t * e) * Y, d.s);
    DividesSum(d.s * (X * e) + (d.t * e) * Y, (d.u * e) * Z, d.s);
    ScaledOne(d.s, d.t, d.u, X, Y, Z, e);
  }

  lemma ScaledOne(s: int, t: int, u: int, X: int, Y: int, Z: int, e: int)
    requires s * X + t * Y + u * Z == 1
    ensures s * (X * e) + (t * e) * Y + (u * e) * Z == e
  {
    assert (s * X + t * Y + u * Z) * e == s * (X * e) + (t * e) * Y + (u * e) * Z;
  }

  lemma ExactQuotient(n: int, d: int) returns (q: int)
    requires d > 0 && n % d == 0
    ensures d * q == n
  {
    q := n / d;
  }

  lemma CompositeForm(d: Parts, c: int, k: int, l: int, m: int)
    requires d.s > 0 && d.t > 0 && d.s * l == d.t * k - d.h
    requires d.t * d.u * k - d.h * d.u - d.s * c == (d.s * d.t) * m
    ensures Composite(d, c, k) == Form(d.s * d.t, d.w * d.u - (k * d.t + l * d.s), k * l - d.w * m)
  {
    PositiveProduct(d.s, d.t);
    DivIntro(d.t * k - d.h, d.s, l);
    DivIntro(d.t * d.u * k - d.h * d.u - d.s * c, d.s * d.t, m);
  }

  /** The last two divisions in multiply are exact. */
  lemma CompositeExact(d: Parts, x: Form, y: Form, k: int) returns (l: int, m: int)
    requires ArePartsOf(d, x, y) && IsMultiplier(d, y.c, k)
    ensures d.s * l == d.t * k - d.h && d.s * m == d.u * k - y.c
    ensures Composite(d, x.c, k) == Form(d.s * d.t, d.w * d.u - (k * d.t + l * d.s), k * l - d.w * m)
  {
    hide Composite;
    l := ExactQuotient(d.t * k - d.h, d.s);
    m := ExactQuotient(d.u * k - y.c, d.s);
    ThirdDivision(d.h, d.s, d.t, d.u, x.c, y.c, k, m);
    CompositeForm(d, x.c, k, l, m);
  }

  lemma ThirdDivision(h: int, s: int, t: int, u: int, c: int, c': int, k: int, m: int)
    requires u * h == t * c' - s * c && s * m == u * k - c'
    ensures t * u * k - h * u - s * c == (s * t) * m
  {
    assert t * (s * m) == t * (u * k) - t * c';
    assert (s * t) * m == t * (s * m) && t * u * k == t * (u * k) && h * u == u * h;
  }

  /** The composed form is positive definite with the common discriminant. */
  lemma CompositeKeeps(d: Parts, x: Form, y: Form, k: int)
    requires Composable(x, y) && ArePartsOf(d, x, y) && IsMultiplier(d, y.c, k)
    ensures PositiveDefinite(Composite(d, x.c, k))
    ensures Discriminant(Composite(d, x.c, k)) == Discriminant(x)
  {
    var l, m := CompositeExact(d, x, y, k);
    PositiveProduct(d.s, d.t);
    CompositeProduct(d.h, d.w, d.s, d.t, d.u, x.c, y.c, k, l, m);
    CompositeDiscriminant(d.w * d.u, k * d.t, l * d.s, (d.w * d.s) * x.c);
    assert l * d.s == d.s * l && k * d.t == d.t * k;
  }

  lemma CompositeProduct(h: int, w: int, s: int, t: int, u: int, c: int, c': int, k: int, l: int, m: int)
    requires u * h == t * c' - s * c && s * l == t * k - h && s * m == u * k - c'
    ensures (s * t) * (k * l - w * m) == (k * t) * (l * s) - (w * u) * (l * s) + (w * s) * c
  {
    assert (s * t) * (k * l - w * m) == (s * t) * (k * l) - (s * t) * (w * m);
    ExchangeFactors(s, t, k, l);
    MiddleProduct(w, s, t, u, k, m, c');
    OuterProduct(h, w, s, t, u, c, c', k, l);
    MulAssoc(w, s, c);
  }

  lemma ExchangeFactors(s: int, t: int, k: int, l: int)
    ensures (s * t) * (k * l) == (k * t) * (l * s)
    ensures (s * t) * (k * l) == (k * t) * (s * l)
  {
  }

  lemma MiddleProduct(w: int, s: int, t: int, u: int, k: int, m: int, c': int)
    requires s * m == u * k - c'
    ensures (s * t) * (w * m) == (w * u) * (t * k) - w * (t * c')
  {
    ExchangeFactors(s, t, w, m);
    assert (w * t) * (u * k - c') == (w * t) * (u * k) - (w * t) * c';
    ExchangeFactors(w, t, u, k);
    assert (u * t) * (k * w) == (w * u) * (t * k) by { ExchangeFactors(u, t, w, k); }
    MulAssoc(w, t, c');
  }

  lemma OuterProduct(h: int, w: int, s: int, t: int, u: int, c: int, c': int, k: int, l: int)
    requires u * h == t * c' - s * c && s * l == t * k - h
    ensures (w * u) * (l * s) == (w * u) * (t * k) - w * (t * c') + w * (s * c)
  {
    assert l * s == t * k - h;
    assert (w * u) * (t * k - h) == (w * u) * (t * k) - (w * u) * h;
    MulAssoc(w, u, h);
    assert w * (t * c' - s * c) == w * (t * c') - w * (s * c);
  }

  lemma CompositeDiscriminant(G: int, P: int, Q: int, n: int)
    ensures (G - (P + Q)) * (G - (P + Q)) - 4 * (P * Q - G * Q + n) == (G - (P - Q)) * (G - (P - Q)) - 4 * n
  {
  }

  // ----- the class of the composed form -----

  /** F is a form that composition may produce from x and y, whichever multiplier it picks. */
  ghost predicate ComposesTo(x: Form, y: Form, F: Form)
    requires Composable(x, y)
  {
    PartsExact(x, y);
    exists k :: IsMultiplier(PartsOf(x, y), y.c, k) && F == Composite(PartsOf(x, y), x.c, k)
  }

  lemma ComposesToExists(x: Form, y: Form)
    requires Composable(x, y)
    ensures exists F :: ComposesTo(x, y, F)
  {
    PartsExact(x, y);
    var X, Y, Z := PartsCoprime(x, y);
    var k := MultiplierExists(PartsOf(x, y), x, y, X, Y, Z);
    assert ComposesTo(x, y, Composite(PartsOf(x, y), x.c, k));
  }

  lemma ComposesToKeeps(x: Form, y: Form, F: Form)
    requires Composable(x, y) && ComposesTo(x, y, F)
    ensures PositiveDefinite(F) && Discriminant(F) == Discriminant(x)
  {
    PartsExact(x, y);
    var d := PartsOf(x, y);
    var k :| IsMultiplier(d, y.c, k) && F == Composite(d, x.c, k);
    CompositeKeeps(d, x, y, k);
  }

  /** Two forms with one leading coefficient and discriminant, whose middle coefficients agree modulo
      twice the leading one, differ by a translation. */
  lemma SameClassByTranslation(F: Form, G: Form, n: int)
    requires PositiveDefinite(F) && F.a == G.a && Discriminant(F) == Discriminant(G)
    requires G.b == F.b + 2 * n * F.a
    ensures Equivalent(F, G)
  {
    TranslateEquivalent(F, n);
    EquivalentKeeps(F, Translate(F, n));
    OuterDetermined(F.a, G.b, G.c, Translate(F, n).c);
  }

  lemma CompositesOneClass(d: Parts, x: Form, y: Form, k: int, k': int, X: int, Y: int, Z: int)
    requires Composable(x, y) && ArePartsOf(d, x, y) && d.s * X + d.t * Y + d.u * Z == 1
    requires IsMultiplier(d, y.c, k) && IsMultiplier(d, y.c, k')
    ensures Equivalent(Composite(d, x.c, k), Composite(d, x.c, k'))
  {
    CompositeKeeps(d, x, y, k);
    CompositeKeeps(d, x, y, k');
    MultipliersCongruent(d, y.c, k, k', X, Y, Z);
    var l, m := CompositeExact(d, x, y, k);
    var l', m' := CompositeExact(d, x, y, k');
    var n := (k' - k) / d.s;
    assert k' - k == d.s * n;
    TranslationBetweenComposites(d.s, d.t, k, k', l, l', d.h, n);
    SameClassByTranslation(Composite(d, x.c, k), Composite(d, x.c, k'), -n);
  }

  lemma ComposesToOneClass(x: Form, y: Form, F: Form, G: Form)
    requires Composable(x, y) && ComposesTo(x, y, F) && ComposesTo(x, y, G)
    ensures Equivalent(F, G)
  {
    PartsExact(x, y);
    var d := PartsOf(x, y);
    var X, Y, Z := PartsCoprime(x, y);
    var k :| IsMultiplier(d, y.c, k) && F == Composite(d, x.c, k);
    var k' :| IsMultiplier(d, y.c, k') && G == Composite(d, x.c, k');
    CompositesOneClass(d, x, y, k, k', X, Y, Z);
  }

  lemma ComposesToOneCanonical(x: Form, y: Form, F: Form, G: Form)
    requires Composable(x, y) && ComposesTo(x, y, F) && ComposesTo(x, y, G)
    ensures PositiveDefinite(F) && PositiveDefinite(G) && Canonical(F) == Canonical(G)
  {
    ComposesToKeeps(x, y, F);
    ComposesToKeeps(x, y, G);
    ComposesToOneClass(x, y, F, G);
    ReductionDecidesEquivalence(F, G);
  }

  lemma TranslationBetweenComposites(s: int, t: int, k: int, k': int, l: int, l': int, h: int, n: int)
    requires k' - k == s * n && s * l == t * k - h && s * l' == t * k' - h
    ensures -(k' * t + l' * s) == -(k * t + l * s) + 2 * -n * (s * t)
  {
    assert t * (k' - k) == t * (s * n) == (s * t) * n;
    assert t * (k' - k) == t * k' - t * k;
  }

  /** The canonical representative of every composite of x and y. */
  ghost function CompositeClass(x: Form, y: Form): (r: Form)
    requires Composable(x, y)
    ensures IsReduced(r) && PositiveDefinite(r) && Discriminant(r) == Discriminant(x)
    ensures exists F :: ComposesTo(x, y, F) && Equivalent(F, r)
  {
    ComposesToExists(x, y);
    var F :| ComposesTo(x, y, F);
    ComposesToKeeps(x, y, F);
    Canonical(F)
  }

  lemma CompositeClassIs(x: Form, y: Form, F: Form)
    requires Composable(x, y) && ComposesTo(x, y, F)
    ensures PositiveDefinite(F) && Canonical(F) == CompositeClass(x, y)
  {
    var r := CompositeClass(x, y);
    var G :| ComposesTo(x, y, G) && Equivalent(G, r);
    ComposesToOneCanonical(x, y, F, G);
    CanonicalUnique(G, r);
  }

  /** Composition of classes: multiply on the reduced arguments. */
  ghost function Compose(f: Form, g: Form): (r: Form)
    requires Composable(f, g)
    ensures IsReduced(r) && PositiveDefinite(r) && Discriminant(r) == Discriminant(f)
  {
    CompositeClass(Canonical(f), Canonical(g))
  }

  // ----- the source's multiply -----

  /** The first congruence multiply solves says u*k = c modulo s. */
  lemma FirstCongruence(d: Parts, x: Form, y: Form, k: int)
    requires ArePartsOf(d, x, y)
    ensures d.s * d.t > 0
    ensures Solves(d.t * d.u, d.h * d.u + d.s * x.c, d.s * d.t, k) <==> Solves(d.u, y.c, d.s, k)
  {
    CancelFactor(d.t, d.s, d.u * k - y.c);
    FactorOut(d.h, d.s, d.t, d.u, x.c, y.c, k);
    assert d.t * d.s == d.s * d.t;
  }

  lemma FactorOut(h: int, s: int, t: int, u: int, c: int, c': int, k: int)
    requires u * h == t * c' - s * c
    ensures (t * u) * k - (h * u + s * c) == t * (u * k - c')
  {
    MulAssoc(t, u, k);
    assert h * u == u * h && t * (u * k - c') == t * (u * k) - t * c';
  }

  /** The second congruence says t*k = h modulo s, for k = k0 + f*n. */
  lemma SecondCongruence(d: Parts, k0: int, f: int, n: int)
    requires d.s > 0
    ensures Solves(d.t * f, d.h - d.t * k0, d.s, n) <==> Solves(d.t, d.h, d.s, k0 + f * n)
  {
    MulAssoc(d.t, f, n);
    assert d.t * (k0 + f * n) == d.t * k0 + d.t * (f * n);
  }

  /** Both congruences are solvable, and every solution of the pair is a multiplier. */
  lemma CongruencesSolvable(x: Form, y: Form) returns (k: int)
    requires Composable(x, y)
    ensures ArePartsOf(PartsOf(x, y), x, y) && IsMultiplier(PartsOf(x, y), y.c, k)
  {
    PartsExact(x, y);
    var X, Y, Z := PartsCoprime(x, y);
    k := MultiplierExists(PartsOf(x, y), x, y, X, Y, Z);
  }

  /** The last part of multiply: the composed form from the parts, x.c and the multiplier k. */
  method BuildForm(d: Parts, c: int, k: int) returns (F: Form)
    requires d.s > 0 && d.t > 0
    ensures F == Composite(d, c, k)
  {
    var r := 0;
    var l := FloorDivision(d.t * k - d.h, d.s);
    var tuk := d.t * d.u;
    tuk := tuk * k;
    var hu := d.h * d.u;
    var sc := d.s * c;
    tuk := tuk - hu;
    tuk := tuk - sc;
    var st := d.s * d.t;
    PositiveProduct(d.s, d.t);
    var m := FloorDivision(tuk, st);
    var ru := r * d.u;
    var a3 := st - ru;
    var ju := d.w * d.u;
    var mr := m * r;
    ju := ju + mr;
    var kt := k * d.t;
    var ls := l * d.s;
    kt := kt + ls;
    var b3 := ju - kt;
    var kl := k * l;
    var jm := d.w * m;
    var c3 := kl - jm;
    F := Form(a3, b3, c3);
  }

  /** The first part of multiply: half sum, half difference and the divisions by their common divisor. */
  method FindParts(x: Form, y: Form) returns (d: Parts)
    requires Composable(x, y)
    ensures d == PartsOf(x, y) && ArePartsOf(d, x, y)
  {
    PartsExact(x, y);
    var g := x.b + y.b;
    g := FloorDivision(g, 2);
    var h := y.b - x.b;
    h := FloorDivision(h, 2);
    var w1 := AllInputValueGCD(y.a, g);
    var w := AllInputValueGCD(x.a, w1);
    var j := w;
    var s := FloorDivision(x.a, w);
    var t := FloorDivision(y.a, w);
    var u := FloorDivision(g, w);
    d := Parts(h, j, s, t, u);
  }

  /** The source's multiply: for forms of one discriminant it never fails, and it returns the canonical
      form of the composed class. */
  method Multiply(f: Form, g: Form) returns (res: Option<Form>)
    requires Composable(f, g)
    ensures res == Some(Compose(f, g))
  {
    res := None;
    var x := Reduced(f);
    var y := Reduced(g);
    var d := FindParts(x, y);
    var h, s, t, u := d.h, d.s, d.t, d.u;
    ghost var k' := CongruencesSolvable(x, y);
    var b := h * u;
    var sc := s * x.c;
    b := b + sc;
    FirstCongruence(d, x, y, k');
    var first := SolveMod(t * u, b, s * t);
    if first.Solvable? {
      var kTemp, constantFactor := first.s, first.t;
      ghost var n' := SolutionOffset(k', kTemp, constantFactor);
      SecondCongruence(d, kTemp, constantFactor, n');
      var second := SolveMod(t * constantFactor, h - t * kTemp, s);
      if second.Solvable? {
        var n := second.s;
        var k := kTemp + constantFactor * n;
        MultiplierFound(d, x, y, kTemp, constantFactor, n);
        var F := BuildForm(d, x.c, k);
        assert ComposesTo(x, y, F);
        CompositeClassIs(x, y, F);
        var result := Reduced(F);
        res := Some(result);
      }
    }
  }

  lemma SolutionOffset(k: int, k0: int, f: int) returns (n: int)
    requires f > 0 && Congruent(k, k0, f)
    ensures k == k0 + f * n
  {
    n := (k - k0) / f;
  }

  lemma MultiplierFound(d: Parts, x: Form, y: Form, k0: int, f: int, n: int)
    requires ArePartsOf(d, x, y) && f > 0 && d.s * d.t > 0
    requires forall k :: Solves(d.t * d.u, d.h * d.u + d.s * x.c, d.s * d.t, k) <==> Congruent(k, k0, f)
    requires Solves(d.t * f, d.h - d.t * k0, d.s, n)
    ensures IsMultiplier(d, y.c, k0 + f * n)
  {
    var k := k0 + f * n;
    DivIntro(k - k0, f, n);
    assert Congruent(k, k0, f);
    FirstCongruence(d, x, y, k);
    SecondCongruence(d, k0, f, n);
  }

  // ----- composition commutes -----

  /** Exchanging the arguments negates h and exchanges s and t. */
  lemma PartsExchange(x: Form, y: Form)
    requires Composable(x, y)
    ensures var d := PartsOf(x, y); PartsOf(y, x) == Parts(-d.h, d.w, d.t, d.s, d.u)
  {
    HalvesExact(x, y);
    HalvesExact(y, x);
    PartsExact(x, y);
    PartsExact(y, x);
    var g := FloorDivision(x.b + y.b, 2);
    assert g == FloorDivision(y.b + x.b, 2);
    GcdRotates(x.a, y.a, g);
  }

  lemma GcdRotates(a: int, b: int, g: int)
    requires a > 0 && b > 0
    ensures AllInputValueGCD(a, AllInputValueGCD(b, g)) == AllInputValueGCD(b, AllInputValueGCD(a, g))
  {
    GcdRotatesDivides(a, b, g);
    GcdRotatesDivides(b, a, g);
    MutualDivisors(AllInputValueGCD(a, AllInputValueGCD(b, g)), AllInputValueGCD(b, AllInputValueGCD(a, g)));
  }

  lemma GcdRotatesDivides(a: int, b: int, g: int)
    requires a > 0 && b > 0
    ensures AllInputValueGCD(a, AllInputValueGCD(b, g)) > 0
    ensures AllInputValueGCD(b, AllInputValueGCD(a, g)) % AllInputValueGCD(a, AllInputValueGCD(b, g)) == 0
  {
    var e' := AllInputValueGCD(b, g);
    var e := AllInputValueGCD(a, e');
    DividesTrans(b, e', e);
    DividesTrans(g, e', e);
    GcdGreatest(a, g, e);
    GcdGreatest(b, AllInputValueGCD(a, g), e);
  }

  lemma MutualDivisors(d: int, e: int)
    requires d > 0 && e > 0 && d % e == 0 && e % d == 0
    ensures d == e
  {
    if d < e {
      QuotientUnique(d, e, 0);
      assert false;
    } else if e < d {
      QuotientUnique(e, d, 0);
      assert false;
    }
  }

  /** Exchanging the two forms exchanges the multiplier k with the quotient l of the first division. */
  lemma CompositeExchanged(d: Parts, d': Parts, x: Form, y: Form, k: int) returns (l: int)
    requires ArePartsOf(d, x, y) && ArePartsOf(d', y, x) && d' == Parts(-d.h, d.w, d.t, d.s, d.u)
    requires IsMultiplier(d, y.c, k)
    ensures IsMultiplier(d', x.c, l) && Composite(d', y.c, l) == Composite(d, x.c, k)
  {
    hide Composite;
    var m;
    l, m := CompositeExact(d, x, y, k);
    ExchangedMultiplier(d.h, d.s, d.t, d.u, x.c, y.c, k, l, m);
    DivIntro(d'.t * l - d'.h, d'.s, k);
    DivIntro(d'.u * l - x.c, d'.s, m);
    var l', m' := CompositeExact(d', y, x, l);
    CancelLeft(d.t, l', k);
    CancelLeft(d.t, m', m);
    assert d.s * d.t == d.t * d.s && k * l == l * k;
  }

  lemma ComposesToCommutes(x: Form, y: Form, F: Form)
    requires Composable(x, y) && ComposesTo(x, y, F)
    ensures ComposesTo(y, x, F)
  {
    hide PartsOf, Composite, IsMultiplier;
    PartsExact(x, y);
    PartsExact(y, x);
    PartsExchange(x, y);
    var k :| IsMultiplier(PartsOf(x, y), y.c, k) && F == Composite(PartsOf(x, y), x.c, k);
    var l := CompositeExchanged(PartsOf(x, y), PartsOf(y, x), x, y, k);
    assert IsMultiplier(PartsOf(y, x), x.c, l) && F == Composite(PartsOf(y, x), y.c, l);
  }

  lemma ExchangedMultiplier(h: int, s: int, t: int, u: int, c: int, c': int, k: int, l: int, m: int)
    requires s > 0 && s * l == t * k - h && s * m == u * k - c' && u * h == t * c' - s * c
    ensures s * l - (-h) == t * k && u * l - c == t * m
  {
    assert s * (u * l) == u * (s * l) == u * (t * k) - u * h;
    assert s * (t * m) == t * (s * m) == t * (u * k) - t * c';
    assert t * (u * k) == u * (t * k);
    assert s * (u * l - c) == s * (u * l) - s * c;
    CancelLeft(s, u * l - c, t * m);
  }

  lemma ComposeCommutes(f: Form, g: Form)
    requires Composable(f, g)
    ensures Compose(f, g) == Compose(g, f)
  {
    var x, y := Canonical(f), Canonical(g);
    ComposesToExists(x, y);
    var F :| ComposesTo(x, y, F);
    ComposesToCommutes(x, y, F);
    CompositeClassIs(x, y, F);
    CompositeClassIs(y, x, F);
  }
}
