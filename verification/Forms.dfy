/** Binary quadratic forms a*x*x + b*x*y + c*y*y, their reduction, and the proof that reduction
    picks one canonical representative from every class of properly equivalent forms. */
module Forms {
  import opened Integers
  import Algebra

  /** The source's group struct without its cached discriminant. */
  datatype Form = Form(a: int, b: int, c: int)

  function Discriminant(f: Form): int {
    f.b * f.b - 4 * (f.a * f.c)
  }

  predicate PositiveDefinite(f: Form) {
    f.a > 0 && Discriminant(f) < 0
  }

  predicate IsNormal(f: Form) {
    -f.a < f.b <= f.a
  }

  predicate IsReduced(f: Form) {
    IsNormal(f) && f.a <= f.c && (f.a == f.c ==> f.b >= 0)
  }

  // ----- proper equivalence: integer substitutions of determinant one -----

  /** The substitution x := p*x + q*y, y := r*x + s*y. */
  datatype Substitution = Substitution(p: int, q: int, r: int, s: int)

  predicate Proper(m: Substitution) {
    m.p * m.s - m.q * m.r == 1
  }

  function Value(f: Form, x: int, y: int): int {
    f.a * x * x + f.b * x * y + f.c * y * y
  }

  function Polar(f: Form, x: int, y: int, z: int, w: int): int {
    2 * f.a * x * z + f.b * (x * w + y * z) + 2 * f.c * y * w
  }

  function Substitute(f: Form, m: Substitution): Form {
    Form(Value(f, m.p, m.r), Polar(f, m.p, m.r, m.q, m.s), Value(f, m.q, m.s))
  }

  function After(m: Substitution, n: Substitution): Substitution {
    Substitution(m.p * n.p + m.q * n.r, m.p * n.q + m.q * n.s, m.r * n.p + m.s * n.r, m.r * n.q + m.s * n.s)
  }

  function Inverse(m: Substitution): Substitution {
    Substitution(m.s, -m.q, -m.r, m.p)
  }

  ghost predicate Equivalent(f: Form, g: Form) {
    exists m: Substitution :: Proper(m) && Substitute(f, m) == g
  }

  lemma ValueAfter(f: Form, m: Substitution, x: int, y: int)
    ensures Value(Substitute(f, m), x, y) == Value(f, m.p * x + m.q * y, m.r * x + m.s * y)
  {
    Algebra.ValueIdentity(f.a, f.b, f.c, m.p, m.q, m.r, m.s, x, y);
  }

  lemma PolarAfter(f: Form, m: Substitution, x: int, y: int, z: int, w: int)
    ensures Polar(Substitute(f, m), x, y, z, w)
         == Polar(f, m.p * x + m.q * y, m.r * x + m.s * y, m.p * z + m.q * w, m.r * z + m.s * w)
  {
    Algebra.PolarIdentity(f.a, f.b, f.c, m.p, m.q, m.r, m.s, x, y, z, w);
  }

  lemma SubstituteAfter(f: Form, m: Substitution, n: Substitution)
    ensures Substitute(Substitute(f, m), n) == Substitute(f, After(m, n))
  {
    ValueAfter(f, m, n.p, n.r);
    ValueAfter(f, m, n.q, n.s);
    PolarAfter(f, m, n.p, n.r, n.q, n.s);
  }

  lemma ProperAfter(m: Substitution, n: Substitution)
    requires Proper(m) && Proper(n)
    ensures Proper(After(m, n))
  {
    Algebra.DeterminantIdentity(m.p, m.q, m.r, m.s, n.p, n.q, n.r, n.s);
  }

  /** A substitution multiplies the discriminant by the square of its determinant. */
  lemma DiscriminantScaled(f: Form, m: Substitution)
    ensures Discriminant(Substitute(f, m)) ==
              Discriminant(f) * ((m.p * m.s - m.q * m.r) * (m.p * m.s - m.q * m.r))
  {
    Algebra.DiscriminantIdentity(f.a, f.b, f.c, m.p, m.q, m.r, m.s);
  }

  lemma DiscriminantSubstitute(f: Form, m: Substitution)
    requires Proper(m)
    ensures Discriminant(Substitute(f, m)) == Discriminant(f)
  {
    hide Substitute, Discriminant;
    DiscriminantScaled(f, m);
    assert m.p * m.s - m.q * m.r == 1;
  }

  lemma EquivalentBy(f: Form, g: Form, m: Substitution)
    requires Proper(m) && Substitute(f, m) == g
    ensures Equivalent(f, g)
  {
  }

  lemma SubstituteIdentity(f: Form, m: Substitution)
    requires m == Substitution(1, 0, 0, 1)
    ensures Proper(m) && Substitute(f, m) == f
  {
    assert f.b * 0 * 1 == 0 && f.b * 0 == 0;
  }

  lemma EquivalentReflexive(f: Form)
    ensures Equivalent(f, f)
  {
    hide Substitute, Proper, Equivalent;
    var m := Substitution(1, 0, 0, 1);
    SubstituteIdentity(f, m);
    EquivalentBy(f, f, m);
  }

  lemma EquivalentTransitive(f: Form, g: Form, h: Form)
    requires Equivalent(f, g) && Equivalent(g, h)
    ensures Equivalent(f, h)
  {
    var m: Substitution :| Proper(m) && Substitute(f, m) == g;
    var n: Substitution :| Proper(n) && Substitute(g, n) == h;
    ProperAfter(m, n);
    SubstituteAfter(f, m, n);
    EquivalentBy(f, h, After(m, n));
  }

  lemma InverseProper(m: Substitution, n: Substitution)
    requires Proper(m) && n == Inverse(m)
    ensures Proper(n)
    ensures After(m, n) == Substitution(1, 0, 0, 1)
  {
    Algebra.InverseIdentity(m.p, m.q, m.r, m.s);
  }

  lemma EquivalentSymmetric(f: Form, g: Form)
    requires Equivalent(f, g)
    ensures Equivalent(g, f)
  {
    var m: Substitution :| Proper(m) && Substitute(f, m) == g;
    var n := Inverse(m);
    SubstituteAfter(f, m, n);
    InverseProper(m, n);
    SubstituteIdentity(f, After(m, n));
    EquivalentBy(g, f, n);
  }

  // ----- what a positive definite form keeps -----

  lemma PositiveOuterCoefficient(f: Form)
    requires PositiveDefinite(f)
    ensures f.c > 0
  {
    assert f.b * f.b >= 0;
    if f.c <= 0 {
      MonotoneProduct(f.c, 0, f.a);
      assert false;
    }
  }

  lemma EquivalentKeeps(f: Form, g: Form)
    requires PositiveDefinite(f) && Equivalent(f, g)
    ensures Discriminant(g) == Discriminant(f) && PositiveDefinite(g)
  {
    var m: Substitution :| Proper(m) && Substitute(f, m) == g;
    DiscriminantSubstitute(f, m);
    ValuePositive(f, m.p, m.r);
  }

  /** A positive definite form is positive everywhere except at the origin. */
  lemma ValuePositive(f: Form, x: int, y: int)
    requires PositiveDefinite(f) && (x != 0 || y != 0)
    ensures Value(f, x, y) > 0
  {
    Algebra.CompleteSquare(f.a, f.b, f.c, x, y);
    var z, d := 2 * f.a * x + f.b * y, -Discriminant(f);
    assert z * z >= 0 && y * y >= 0 && d * (y * y) >= 0;
    if y == 0 {
      NonzeroProduct(2 * f.a, x);
      SquarePositive(z);
    } else {
      SquarePositive(y);
      PositiveProduct(d, y * y);
    }
    if Value(f, x, y) <= 0 {
      MonotoneProduct(Value(f, x, y), 0, f.a);
      assert false;
    }
  }

  lemma SquarePositive(z: int)
    requires z != 0
    ensures z * z > 0
  {
  }

  lemma NonzeroProduct(x: int, y: int)
    requires x != 0 && y != 0
    ensures x * y != 0
  {
  }

  // ----- the moves reduction is made of -----

  /** The substitution x := x + n*y. */
  function Translate(f: Form, n: int): Form {
    Form(f.a, f.b + 2 * n * f.a, f.c + f.a * n * n + f.b * n)
  }

  /** One round of the reduction loop: swap the outer coefficients, then translate by n. */
  function Turn(f: Form, n: int): Form {
    Form(f.c, -f.b + 2 * n * f.c, f.c * n * n - f.b * n + f.a)
  }

  lemma TranslateEquivalent(f: Form, n: int)
    ensures Equivalent(f, Translate(f, n))
  {
    var m := Substitution(1, n, 0, 1);
    Algebra.TranslateIdentity(f.a, f.b, f.c, n);
    EquivalentBy(f, Translate(f, n), m);
  }

  lemma TurnEquivalent(f: Form, n: int)
    ensures Equivalent(f, Turn(f, n))
  {
    var m := Substitution(0, -1, 1, n);
    Algebra.TurnIdentity(f.a, f.b, f.c, n);
    EquivalentBy(f, Turn(f, n), m);
  }

  /** The source's normalized. */
  function Normalized(f: Form): (g: Form)
    requires f.a > 0
    ensures IsNormal(g) && g.a == f.a && (IsNormal(f) ==> g == f)
  {
    if IsNormal(f) then f
    else
      var r := FloorDivision(f.a - f.b, f.a * 2);
      NormalizingShift(f.a, f.b, r);
      Translate(f, r)
  }

  lemma NormalizingShift(a: int, b: int, r: int)
    requires a > 0 && (a * 2) * r <= a - b < (a * 2) * r + a * 2
    ensures -a < b + 2 * r * a <= a
  {
    assert (a * 2) * r == 2 * r * a;
  }

  lemma NormalizedEquivalent(f: Form)
    requires f.a > 0
    ensures Equivalent(f, Normalized(f))
  {
    if IsNormal(f) {
      EquivalentReflexive(f);
    } else {
      TranslateEquivalent(f, FloorDivision(f.a - f.b, f.a * 2));
    }
  }

  predicate NeedsTurn(f: Form) {
    f.a > f.c || (f.a == f.c && f.b < 0)
  }

  lemma TurnMiddle(f: Form, n: int)
    ensures Turn(f, n).a == f.c && Turn(f, n).b == -f.b + 2 * n * f.c
  {
  }

  lemma TurnIsNormal(f: Form, n: int)
    requires -f.c < -f.b + 2 * n * f.c <= f.c
    ensures IsNormal(Turn(f, n)) && Turn(f, n).a == f.c
  {
    TurnMiddle(f, n);
    hide Turn;
  }

  /** The middle coefficient after a turn lies in the normal range. */
  lemma TurnedMiddle(b: int, c: int, n: int)
    requires c > 0 && (c + c) * n <= c + b < (c + c) * n + (c + c)
    ensures -c < -b + 2 * n * c <= c
  {
    assert (c + c) * n == 2 * n * c;
  }

  /** With equal outer coefficients and a negative b the turn is by nothing, and b changes its sign. */
  lemma TurnedSign(b: int, c: int, n: int)
    requires c > 0 && -c < b < 0 && (c + c) * n <= c + b < (c + c) * n + (c + c)
    ensures -b + 2 * n * c == -b
  {
    SmallMultiple(c + c, n);
  }

  /** One round of the loop in reduced(): the new form is normal again, belongs to the same class,
      and is smaller in the order (a, then sign of b). */
  lemma TurnProgress(f: Form, n: int)
    requires PositiveDefinite(f) && IsNormal(f) && NeedsTurn(f) && f.c > 0
    requires n == FloorDivision(f.c + f.b, f.c + f.c)
    ensures var g := Turn(f, n);
            && PositiveDefinite(g) && IsNormal(g) && Equivalent(f, g)
            && (g.a < f.a || (g.a == f.a && f.b < 0 <= g.b))
  {
    hide Equivalent, Discriminant;
    TurnEquivalent(f, n);
    EquivalentKeeps(f, Turn(f, n));
    TurnedMiddle(f.b, f.c, n);
    TurnIsNormal(f, n);
    if f.a == f.c {
      TurnedSign(f.b, f.c, n);
      TurnMiddle(f, n);
    }
  }

  // ----- the canonical representative -----

  lemma {:induction false} ReducedExists(f: Form) returns (g: Form)
    requires PositiveDefinite(f) && IsNormal(f)
    ensures IsReduced(g) && Equivalent(f, g)
    decreases f.a, if f.b < 0 then 1 else 0
  {
    PositiveOuterCoefficient(f);
    if NeedsTurn(f) {
      var n := FloorDivision(f.c + f.b, f.c + f.c);
      TurnProgress(f, n);
      g := ReducedExists(Turn(f, n));
      EquivalentTransitive(f, Turn(f, n), g);
    } else {
      g := f;
      EquivalentReflexive(f);
    }
  }

  /** The reduced form in the class of f: by CanonicalUnique there is exactly one. */
  ghost function Canonical(f: Form): (g: Form)
    requires PositiveDefinite(f)
    ensures IsReduced(g) && Equivalent(f, g)
    ensures PositiveDefinite(g) && Discriminant(g) == Discriminant(f)
  {
    CanonicalExists(f);
    var g :| IsReduced(g) && Equivalent(f, g);
    EquivalentKeeps(f, g);
    g
  }

  lemma CanonicalExists(f: Form)
    requires PositiveDefinite(f)
    ensures exists g :: IsReduced(g) && Equivalent(f, g)
  {
    NormalizedEquivalent(f);
    EquivalentKeeps(f, Normalized(f));
    var g := ReducedExists(Normalized(f));
    EquivalentTransitive(f, Normalized(f), g);
  }

  // ----- uniqueness of reduced forms -----

  /** On a reduced form, no value at a nonzero point is below a*(x*x - |x*y| + y*y). */
  lemma ReducedValueBound(f: Form, x: int, y: int)
    requires f.a > 0 && IsReduced(f)
    ensures Value(f, x, y) >= f.a * (x * x - Abs(x * y) + y * y)
  {
    MiddleTermBound(f.a, f.b, x * y);
    assert x * x >= 0 && y * y >= 0;
    MonotoneProduct(f.a, f.c, y * y);
    Algebra.ValueByProducts(f.a, f.b, f.c, x, y);
    Algebra.TripleScaled(f.a, x * x, Abs(x * y), y * y);
  }

  lemma MiddleTermBound(a: int, b: int, z: int)
    requires -a < b <= a
    ensures b * z >= -(a * Abs(z))
  {
    if z >= 0 {
      MonotoneProduct(-a, b, z);
    } else {
      MonotoneProduct(b, a, -z);
    }
  }

  lemma SmallNorm(x: int, y: int)
    ensures x * x - Abs(x * y) + y * y >= 0
    ensures x * x - Abs(x * y) + y * y == 0 ==> x == 0 && y == 0
    ensures x * x - Abs(x * y) + y * y == 1 ==> -1 <= x <= 1 && -1 <= y <= 1
  {
    var u, v := Abs(x), Abs(y);
    assert x * x == u * u && y * y == v * v && Abs(x * y) == u * v by {
      AbsProduct(x, y);
      AbsProduct(x, x);
      AbsProduct(y, y);
    }
    NormOfNaturals(u, v);
  }

  lemma AbsProduct(x: int, y: int)
    ensures Abs(x * y) == Abs(x) * Abs(y)
    ensures x == y ==> x * y == Abs(x) * Abs(y)
  {
    assert (-x) * y == -(x * y) && x * (-y) == -(x * y) && (-x) * (-y) == x * y;
    if x >= 0 && y >= 0 {
      MonotoneProduct(0, x, y);
    } else if x < 0 && y < 0 {
      MonotoneProduct(0, -x, -y);
    } else if x < 0 {
      MonotoneProduct(0, -x, y);
    } else {
      MonotoneProduct(0, x, -y);
    }
  }

  lemma NormOfNaturals(u: nat, v: nat)
    ensures u * u - u * v + v * v >= 0
    ensures u * u - u * v + v * v == 0 ==> u == 0 && v == 0
    ensures u * u - u * v + v * v == 1 ==> u <= 1 && v <= 1
  {
    if u >= v {
      LargerFirst(u, v);
    } else {
      LargerFirst(v, u);
      assert u * v == v * u;
    }
  }

  lemma LargerFirst(u: nat, v: nat)
    requires u >= v
    ensures u * u - u * v + v * v >= 0
    ensures u * u - u * v + v * v == 0 ==> u == 0
    ensures u * u - u * v + v * v == 1 ==> u <= 1
  {
    assert u * u - u * v == u * (u - v);
    MonotoneProduct(0, u, u - v);
    if v == 0 {
      if u >= 2 { MonotoneProduct(2, u, u); }
    } else {
      PositiveProduct(v, v);
      if u > v { MonotoneProduct(1, u - v, u); }
      if v >= 2 { MonotoneProduct(2, v, v); }
    }
  }

  lemma OuterDetermined(a: int, b: int, c: int, c': int)
    requires a > 0 && b * b - 4 * (a * c) == b * b - 4 * (a * c')
    ensures c == c'
  {
    CancelLeft(a, c, c');
  }

  lemma UnitProduct(x: int, y: int)
    requires x * y == 1 || x * y == -1
    ensures (x == 1 || x == -1) && (y == 1 || y == -1)
  {
    AbsProduct(x, y);
    if Abs(x) >= 2 || Abs(y) >= 2 {
      NonzeroFactors(x, y);
      PositiveProduct(Abs(x), Abs(y));
      assert false;
    }
    NonzeroFactors(x, y);
  }

  lemma NonzeroFactors(x: int, y: int)
    requires x * y != 0
    ensures x != 0 && y != 0
  {
  }

  lemma TranslationForced(a: int, b: int, b': int, c: int, c': int, k: int)
    requires a > 0 && -a < b <= a && -a < b' <= a && b' == b + a * 2 * k
    requires b' * b' - 4 * (a * c') == b * b - 4 * (a * c)
    ensures b' == b && c' == c
  {
    SmallMultiple(a * 2, k);
    OuterDetermined(a, b, c, c');
  }

  /** The coefficients of an upper triangular substitution. */
  lemma UpperCoefficients(f: Form, m: Substitution)
    requires Proper(m) && m.r == 0
    ensures Substitute(f, m).a == f.a && Substitute(f, m).b == f.b + f.a * 2 * (m.p * m.q)
  {
    UnitProduct(m.p, m.s);
    Algebra.UpperTriangular(f.a, f.b, f.c, m.p, m.q, m.s);
  }

  /** A translation between two normal forms is the identity. */
  lemma UniqueByTranslation(f: Form, g: Form, m: Substitution)
    requires f.a > 0 && IsNormal(f) && IsNormal(g)
    requires Proper(m) && Substitute(f, m) == g && m.r == 0
    ensures f == g
  {
    hide Substitute, Proper;
    DiscriminantSubstitute(f, m);
    UpperCoefficients(f, m);
    TranslationForced(f.a, f.b, g.b, f.c, g.c, m.p * m.q);
  }

  /** When the equivalence exchanges the outer coefficients they are equal, and so are the forms. */
  lemma UniqueByExchange(f: Form, g: Form, m: Substitution)
    requires f.a > 0 && IsReduced(f) && IsReduced(g) && g.a <= f.a
    requires Proper(m) && Substitute(f, m) == g && m.p == 0
    ensures f == g
  {
    DiscriminantSubstitute(f, m);
    UnitProduct(m.q, m.r);
    var k := m.r * m.s;
    Algebra.LowerExchange(f.a, f.b, f.c, m.q, m.r, m.s);
    ExchangeSolved(f.a, f.b, g.b, g.c, k);
  }

  lemma ExchangeSolved(a: int, b: int, b': int, c': int, k: int)
    requires a > 0 && 0 <= b <= a && -a < b' <= a && a * 2 * k == b' + b
    requires b' * b' - 4 * (a * c') == b * b - 4 * (a * a) && (a == c' ==> b' >= 0)
    ensures b' == b && c' == a
  {
    ZeroOrOne(a, k, b' + b);
    assert b' == b || b' == -b;
    assert b' * b' == b * b;
    OuterDetermined(a, b, a, c');
  }

  lemma ZeroOrOne(a: int, k: int, n: int)
    requires a > 0 && a * 2 * k == n && -a < n <= 2 * a
    ensures k == 0 || k == 1
  {
    if k >= 2 {
      MonotoneProduct(2, k, a * 2);
      assert false;
    } else if k <= -1 {
      MonotoneProduct(k, -1, a * 2);
      assert false;
    }
  }

  /** The remaining case leaves only the form a*(x*x + x*y + y*y). */
  lemma UniqueByCorner(f: Form, g: Form, m: Substitution)
    requires f.a > 0 && IsReduced(f) && IsReduced(g) && g.a <= f.a
    requires Proper(m) && Substitute(f, m) == g
    requires (m.p == 1 || m.p == -1) && (m.r == 1 || m.r == -1)
    ensures f == g
  {
    DiscriminantSubstitute(f, m);
    Algebra.CornerValue(f.a, f.b, f.c, m.p, m.r);
    var a := f.a;
    assert f == Form(a, a, a) && g.a == a;
    MonotoneProduct(a, g.c, a);
    assert g.b * g.b >= a * a;
    if Abs(g.b) < a {
      AbsProduct(g.b, g.b);
      StrictSquare(Abs(g.b), a);
      assert false;
    }
    OuterDetermined(a, a, a, g.c);
  }

  lemma StrictSquare(x: nat, y: nat)
    requires x < y
    ensures x * x < y * y
  {
    MonotoneProduct(x, y - 1, x);
    MonotoneProduct(x, y - 1, y);
  }

  lemma ReducedUniqueOneWay(f: Form, g: Form)
    requires PositiveDefinite(f) && IsReduced(f) && IsReduced(g) && Equivalent(f, g) && g.a <= f.a
    ensures f == g
  {
    var m: Substitution :| Proper(m) && Substitute(f, m) == g;
    var norm := m.p * m.p - Abs(m.p * m.r) + m.r * m.r;
    ReducedValueBound(f, m.p, m.r);
    SmallNorm(m.p, m.r);
    if norm == 0 {
      assert false;
    }
    if norm >= 2 {
      MonotoneProduct(2, norm, f.a);
      assert false;
    }
    if m.r == 0 {
      UniqueByTranslation(f, g, m);
    } else if m.p == 0 {
      UniqueByExchange(f, g, m);
    } else {
      UniqueByCorner(f, g, m);
    }
  }

  /** Two equivalent reduced forms are equal. */
  lemma ReducedUnique(f: Form, g: Form)
    requires PositiveDefinite(f) && IsReduced(f) && IsReduced(g) && Equivalent(f, g)
    ensures f == g
  {
    EquivalentKeeps(f, g);
    if g.a <= f.a {
      ReducedUniqueOneWay(f, g);
    } else {
      EquivalentSymmetric(f, g);
      ReducedUniqueOneWay(g, f);
    }
  }

  lemma CanonicalUnique(f: Form, g: Form)
    requires PositiveDefinite(f) && IsReduced(g) && Equivalent(f, g)
    ensures g == Canonical(f)
  {
    var h := Canonical(f);
    EquivalentSymmetric(f, g);
    EquivalentKeeps(f, g);
    EquivalentTransitive(g, f, h);
    ReducedUnique(g, h);
  }

  /** Reduction decides equivalence: two forms reduce to the same form exactly when they are equivalent. */
  lemma ReductionDecidesEquivalence(f: Form, g: Form)
    requires PositiveDefinite(f) && PositiveDefinite(g)
    ensures Equivalent(f, g) <==> Canonical(f) == Canonical(g)
  {
    var h := Canonical(g);
    if Equivalent(f, g) {
      EquivalentTransitive(f, g, h);
      CanonicalUnique(f, h);
    }
    if Canonical(f) == h {
      EquivalentSymmetric(g, h);
      EquivalentTransitive(f, h, g);
    }
  }

  /** The source's reduced(): terminates on every positive definite form and returns the canonical
      representative of its class. */
  method Reduced(f: Form) returns (r: Form)
    requires PositiveDefinite(f)
    ensures IsReduced(r) && PositiveDefinite(r) && Discriminant(r) == Discriminant(f)
    ensures Equivalent(f, r) && r == Canonical(f)
  {
    var g := Normalized(f);
    NormalizedEquivalent(f);
    EquivalentKeeps(f, g);
    var a, b, c := g.a, g.b, g.c;
    while a > c || (a == c && b < 0)
      invariant PositiveDefinite(Form(a, b, c)) && IsNormal(Form(a, b, c))
      invariant Equivalent(f, Form(a, b, c))
      decreases a, if b < 0 then 1 else 0
    {
      ghost var before := Form(a, b, c);
      PositiveOuterCoefficient(before);
      var s := c + b;
      s := FloorDivision(s, c + c);
      var oldA, oldB := a, b;
      a := c;
      b := -b;
      var x := 2 * s;
      x := x * c;
      b := b + x;
      c := c * s;
      c := c * s;
      oldB := oldB * s;
      c := c - oldB;
      c := c + oldA;
      TurnProgress(before, s);
      EquivalentTransitive(f, before, Form(a, b, c));
    }
    r := Normalized(Form(a, b, c));
    EquivalentKeeps(f, r);
    CanonicalUnique(f, r);
  }
}
