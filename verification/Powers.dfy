/** Identity, squaring, exponentiation and repeated squaring of forms. */
module Powers {
  import opened Integers
  import opened Options
  import opened Forms
  import opened Lattices
  import opened Congruence
  import opened Composition
  import opened GroupLaw
  import opened Primes

  /** The source's newGroupFromDiscriminant. */
  function FromDiscriminant(a: int, b: int, d: int): Form
    requires a != 0
  {
    var z := b * b - d;
    Form(a, b, FloorDivision(z, a * 4))
  }

  /** The discriminants the source works with: negative and congruent to 1 modulo 4. */
  predicate OddDiscriminant(d: int) {
    d < 0 && d % 4 == 1
  }

  function Identity(d: int): Form {
    FromDiscriminant(1, 1, d)
  }

  lemma IdentityIsForm(d: int)
    requires OddDiscriminant(d)
    ensures PositiveDefinite(Identity(d)) && Discriminant(Identity(d)) == d
    ensures IsReduced(Identity(d)) && Primitive(Identity(d)) && Canonical(Identity(d)) == Identity(d)
  {
    var e := Identity(d);
    assert e.c == (1 - d) / 4;
    EquivalentReflexive(e);
    CanonicalUnique(e, e);
    PrimitiveByCombination(e, 1, 0, 0);
  }

  /** The form the proof-of-work hash starts from. */
  lemma BaseForm(d: int)
    requires d < 0 && d % 8 == 1
    ensures var f := FromDiscriminant(2, 1, d);
            && f.a == 2 && f.b == 1 && PositiveDefinite(f) && Discriminant(f) == d && AllInputValueGCD(f.a, f.b) == 1
  {
    assert FromDiscriminant(2, 1, d).c == (1 - d) / 8;
    GcdGreatest(2, 1, AllInputValueGCD(2, 1));
    DivisorOfOne(AllInputValueGCD(2, 1));
  }

  // ----- identity and inverse -----

  /** The shift that makes an odd middle coefficient one. */
  lemma ShiftToOne(b: int)
    requires b % 2 == 1
    ensures 1 == b + 2 * ((1 - b) / 2) * 1
  {
  }

  lemma IdentityCoefficients(d: int)
    ensures Identity(d).a == 1 && Identity(d).b == 1
  {
  }

  lemma SquareMinusProduct(f: Form)
    requires f.a == 1
    ensures f.b * f.b - 4 * f.c == Discriminant(f)
  {
  }

  /** A form with leading coefficient one is in the identity class. */
  lemma LeadingOne(f: Form)
    requires PositiveDefinite(f) && OddDiscriminant(Discriminant(f)) && f.a == 1
    ensures Canonical(f) == Identity(Discriminant(f))
  {
    hide PositiveDefinite, Discriminant, Identity, Canonical, IsReduced, Primitive, Equivalent;
    var d := Discriminant(f);
    IdentityIsForm(d);
    IdentityCoefficients(d);
    SquareMinusProduct(f);
    OddSquare(f.b, f.c, d);
    ShiftToOne(f.b);
    SameClassByTranslation(f, Identity(d), (1 - f.b) / 2);
    CanonicalUnique(f, Identity(d));
  }

  lemma OddSquare(b: int, c: int, d: int)
    requires b * b - 4 * c == d && d % 4 == 1
    ensures b % 2 == 1
  {
    SquareModFour(b, b / 2);
  }

  lemma FactorOfOne(w: int, s: int)
    requires w > 0 && w * s == 1
    ensures w == 1 && s == 1
  {
    UnitProduct(w, s);
  }

  /** Composing with the identity only reduces. */
  lemma ComposeIdentity(g: Form)
    requires PositiveDefinite(g) && OddDiscriminant(Discriminant(g))
    ensures var e := Identity(Discriminant(g)); Composable(e, g) && Compose(e, g) == Canonical(g)
  {
    var e, y := Identity(Discriminant(g)), Canonical(g);
    IdentityIsForm(Discriminant(g));
    ComposesToExists(e, y);
    var F :| ComposesTo(e, y, F);
    CompositeClassIs(e, y, F);
    ComposesToKeeps(e, y, F);
    var d, k, l, m, X, Y, Z := ComposedEquations(e, y, F);
    FactorOfOne(d.w, d.s);
    MiddleShift(d.h, d.w, d.u, d.s, d.t, k, l);
    SameClassByTranslation(y, F, -k);
    ReductionDecidesEquivalence(y, F);
    EquivalentReflexive(y);
    CanonicalUnique(y, y);
  }

  lemma MiddleShift(h: int, w: int, u: int, s: int, t: int, k: int, l: int)
    requires w == 1 && s == 1 && s * l == t * k - h
    ensures s * t == t && w * t == t && w * u - (k * t + l * s) == (w * u + h) + 2 * -k * t
  {
    assert k * t == t * k && 2 * -k * t == -2 * (k * t);
  }

  function Opposite(f: Form): Form {
    Form(f.a, -f.b, f.c)
  }

  /** Every primitive class has an inverse. */
  lemma ComposeInverse(f: Form)
    requires PositiveDefinite(f) && Primitive(f) && OddDiscriminant(Discriminant(f))
    ensures Composable(f, Opposite(f)) && Compose(f, Opposite(f)) == Identity(Discriminant(f))
  {
    var g := Opposite(f);
    SignSquared(f.b);
    OppositePrimitive(f);
    hide Primitive;
    var F := ComposeOnce(f, g);
    InverseLeading(f, F);
    LeadingOne(F);
  }

  lemma SignSquared(b: int)
    ensures (-b) * (-b) == b * b
  {
  }

  lemma InverseLeading(f: Form, F: Form)
    requires Composable(f, Opposite(f)) && ComposesTo(f, Opposite(f), F)
    ensures F.a == 1
  {
    var g := Opposite(f);
    PartsExact(f, g);
    OppositeParts(f);
    var d := PartsOf(f, g);
    CancelLeft(f.a, d.s, 1);
    CancelLeft(f.a, d.t, 1);
  }

  lemma OppositeParts(f: Form)
    requires f.a > 0
    ensures PartsOf(f, Opposite(f)).w == f.a
  {
    assert FloorDivision(f.b + -f.b, 2) == 0;
    assert AllInputValueGCD(f.a, 0) == f.a;
    DivIntro(f.a, f.a, 1);
    GcdGreatest(f.a, f.a, f.a);
    DividesUpTo(f.a, AllInputValueGCD(f.a, f.a));
  }

  lemma OppositePrimitive(f: Form)
    requires PositiveDefinite(f) && Primitive(f)
    ensures Primitive(Opposite(f))
  {
    var i, j, k := PrimitiveBezout(f);
    assert (-f.b) * -j == f.b * j;
    PrimitiveByCombination(Opposite(f), i, -j, k);
  }

  // ----- the fast square -----

  /** The form square() builds from a solution u, before it is reduced. */
  function SquareForm(g: Form, u: int): Form
    requires g.a > 0
  {
    Form(g.a * g.a, g.b - g.a * u * 2, u * u - FloorDivision(g.b * u - g.c, g.a))
  }

  lemma SquareKeeps(g: Form, u: int)
    requires PositiveDefinite(g) && Solves(g.b, g.c, g.a, u)
    ensures PositiveDefinite(SquareForm(g, u)) && Discriminant(SquareForm(g, u)) == Discriminant(g)
  {
    var m := (g.b * u - g.c) / g.a;
    SquareDiscriminant(g.a, g.b, g.c, u, m);
    PositiveProduct(g.a, g.a);
  }

  lemma SquareDiscriminant(a: int, b: int, c: int, u: int, m: int)
    requires a * m == b * u - c
    ensures (b - a * u * 2) * (b - a * u * 2) - 4 * ((a * a) * (u * u - m)) == b * b - 4 * (a * c)
  {
    var v := a * u;
    assert (b - v * 2) * (b - v * 2) == b * b - 4 * (b * v) + 4 * (v * v);
    assert (a * a) * (u * u) == v * v;
    assert (a * a) * m == a * (a * m) == a * (b * u) - a * c;
    assert (a * a) * (u * u - m) == (a * a) * (u * u) - (a * a) * m;
    assert a * (b * u) == b * v;
  }

  /** The congruence in square() is solvable exactly when gcd(a, b) divides c. */
  lemma SquareSolvable(g: Form)
    requires g.a > 0
    ensures AllInputValueGCD(g.a, g.b) > 0
    ensures (exists u :: Solves(g.b, g.c, g.a, u)) <==> g.c % AllInputValueGCD(g.a, g.b) == 0
  {
    var e := AllInputValueGCD(g.a, g.b);
    if u :| Solves(g.b, g.c, g.a, u) {
      SolvableNeedsDivisor(g.b, g.c, g.a, e, u);
    }
    if g.c % e == 0 {
      var i, j := GcdBezout(g.a, g.b);
      var q := g.c / e;
      SquareSolution(g.a, g.b, g.c, e, i, j, q);
      DivIntro(g.b * (j * q) - g.c, g.a, -(i * q));
      assert Solves(g.b, g.c, g.a, j * q);
    }
  }

  lemma SquareSolution(a: int, b: int, c: int, e: int, i: int, j: int, q: int)
    requires e == a * i + b * j && c == e * q
    ensures b * (j * q) - c == a * -(i * q)
  {
    assert (a * i + b * j) * q == a * (i * q) + b * (j * q);
  }

  /** When gcd(a, b) = 1 the form square() builds is a composite of g with itself. */
  lemma SquareComposes(g: Form, u: int)
    requires PositiveDefinite(g) && AllInputValueGCD(g.a, g.b) == 1 && Solves(g.b, g.c, g.a, u)
    ensures ComposesTo(g, g, SquareForm(g, u))
  {
    PartsExact(g, g);
    var d := PartsOf(g, g);
    SelfParts(g);
    DivIntro(g.a * u, g.a, u);
    var l, m := CompositeExact(d, g, g, u);
    CancelLeft(g.a, l, u);
    DivIntro(g.b * u - g.c, g.a, m);
    assert g.a * u * 2 == u * g.a + l * g.a;
    assert SquareForm(g, u) == Composite(d, g.c, u);
  }

  lemma SelfParts(g: Form)
    requires g.a > 0 && AllInputValueGCD(g.a, g.b) == 1
    ensures PartsOf(g, g) == Parts(0, 1, g.a, g.a, g.b)
  {
    assert FloorDivision(g.b + g.b, 2) == g.b;
    GcdGreatest(g.a, 1, AllInputValueGCD(g.a, 1));
    DivisorOfOne(AllInputValueGCD(g.a, 1));
    assert FloorDivision(g.a, 1) == g.a && FloorDivision(g.b, 1) == g.b;
  }

  lemma CoprimeIsPrimitive(g: Form)
    requires g.a > 0 && AllInputValueGCD(g.a, g.b) == 1
    ensures Primitive(g)
  {
    var i, j := GcdBezout(g.a, g.b);
    PrimitiveByCombination(g, i, j, 0);
  }

  lemma PrimitiveCoprime(g: Form)
    requires g.a > 0 && Primitive(g) && g.c % AllInputValueGCD(g.a, g.b) == 0
    ensures AllInputValueGCD(g.a, g.b) == 1
  {
    var e := AllInputValueGCD(g.a, g.b);
    GcdGreatest(g.b, g.c, e);
    GcdGreatest(g.a, AllInputValueGCD(g.b, g.c), e);
    DivisorOfOne(e);
  }

  /** The source's square(). It succeeds exactly when gcd(a, b) divides c; when gcd(a, b) = 1 its result
      is the composition of g with itself, whether or not g is reduced. */
  method Square(g: Form) returns (res: Option<Form>)
    requires PositiveDefinite(g)
    ensures res.Some? <==> g.c % AllInputValueGCD(g.a, g.b) == 0
    ensures res.Some? ==> IsReduced(res.value) && PositiveDefinite(res.value)
    ensures res.Some? ==> Discriminant(res.value) == Discriminant(g)
    ensures AllInputValueGCD(g.a, g.b) == 1 ==> res == Some(Compose(g, g))
  {
    SquareSolvable(g);
    var solution := SolveMod(g.b, g.c, g.a);
    if solution.Solvable? {
      var u := solution.s;
      assert Congruent(u, u, solution.t);
      SquareKeeps(g, u);
      var A := g.a * g.a;
      var au := g.a * u;
      var B := g.b - au * 2;
      var C := u * u;
      var m := g.b * u;
      m := m - g.c;
      m := FloorDivision(m, g.a);
      C := C - m;
      var r := Reduced(Form(A, B, C));
      ghost var coprime := AllInputValueGCD(g.a, g.b) == 1;
      if coprime {
        SquareComposes(g, u);
        CoprimeIsPrimitive(g);
        ComposeWellDefined(g, g, SquareForm(g, u));
      }
      res := Some(r);
    } else {
      res := None;
    }
  }

  // ----- powers -----

  /** The forms the group laws are about. */
  predicate Element(g: Form) {
    PositiveDefinite(g) && Primitive(g) && OddDiscriminant(Discriminant(g))
  }

  /** The n-fold composition of g with itself. */
  ghost function Power(g: Form, n: nat): (r: Form)
    requires Element(g)
    ensures Element(r) && Discriminant(r) == Discriminant(g) && Canonical(r) == r
  {
    if n == 0 then
      IdentityIsForm(Discriminant(g));
      Identity(Discriminant(g))
    else
      PowerStep(g, Power(g, n - 1));
      Compose(Power(g, n - 1), g)
  }

  lemma PowerStep(g: Form, h: Form)
    requires Element(g) && Element(h) && Discriminant(h) == Discriminant(g)
    ensures Element(Compose(h, g)) && Canonical(Compose(h, g)) == Compose(h, g)
  {
    ComposePrimitive(h, g);
    EquivalentReflexive(Compose(h, g));
    CanonicalUnique(Compose(h, g), Compose(h, g));
  }

  lemma {:induction false} PowerAdd(g: Form, m: nat, n: nat)
    requires Element(g)
    ensures Power(g, m + n) == Compose(Power(g, m), Power(g, n))
    decreases n
  {
    hide Primitive, PositiveDefinite, Discriminant, OddDiscriminant, Compose, Identity, IsReduced, Equivalent;
    if n == 0 {
      ComposeIdentity(Power(g, m));
      ComposeCommutes(Power(g, m), Power(g, 0));
    } else {
      PowerAdd(g, m, n - 1);
      ComposeAssociates(Power(g, m), Power(g, n - 1), g);
    }
  }

  lemma PowerOne(g: Form)
    requires Element(g)
    ensures Power(g, 1) == Canonical(g)
  {
    ComposeIdentity(g);
  }

  lemma {:induction false} PowerOfCanonical(g: Form, n: nat)
    requires Element(g)
    ensures Element(Canonical(g)) && Power(Canonical(g), n) == Power(g, n)
  {
    hide Primitive, PositiveDefinite, Discriminant, OddDiscriminant, Compose, Identity, IsReduced, Equivalent;
    EquivalentPrimitive(g, Canonical(g));
    if n > 0 {
      PowerOfCanonical(g, n - 1);
      ComposeOfCanonical(Power(g, n - 1), g);
    }
  }

  /** (g^m)^n = g^(m*n). */
  lemma {:induction false} PowerMul(g: Form, m: nat, n: nat)
    requires Element(g)
    ensures m * n >= 0 && Power(Power(g, m), n) == Power(g, m * n)
    decreases n
  {
    hide Primitive, PositiveDefinite, Discriminant, OddDiscriminant, Compose, Identity, IsReduced, Equivalent;
    MonotoneProduct(0, m, n);
    if n > 0 {
      PowerMul(g, m, n - 1);
      assert m * n == m * (n - 1) + m;
      PowerAdd(g, m * (n - 1), m);
    }
  }

  /** Squaring the base halves the exponent. */
  lemma PowerOfSquare(g: Form, n: nat)
    requires Element(g)
    ensures Element(Compose(g, g)) && Power(Compose(g, g), n) == Power(g, 2 * n)
  {
    PowerStep(g, g);
    PowerOne(g);
    PowerAdd(g, 1, 1);
    ComposeOfCanonical(Canonical(g), g);
    ComposeCommutes(Canonical(g), g);
    ComposeOfCanonical(g, g);
    PowerMul(g, 2, n);
  }

  // ----- when the squarings inside pow succeed -----

  /** g squared i times. */
  ghost function Squared(g: Form, i: nat): (r: Form)
    requires Element(g)
    ensures Element(r) && Discriminant(r) == Discriminant(g)
  {
    if i == 0 then g
    else
      PowerStep(Squared(g, i - 1), Squared(g, i - 1));
      Compose(Squared(g, i - 1), Squared(g, i - 1))
  }

  predicate Coprime(g: Form) {
    AllInputValueGCD(g.a, g.b) == 1
  }

  /** square() succeeds on each of the first n members of the chain g, g^2, g^4, ... */
  ghost predicate Squarable(g: Form, n: nat)
    requires Element(g)
  {
    forall i: nat :: i < n ==> Coprime(Squared(g, i))
  }

  function Pow2(n: nat): nat {
    if n == 0 then 1 else 2 * Pow2(n - 1)
  }

  function BitLength(n: nat): nat {
    if n == 0 then 0 else 1 + BitLength(n / 2)
  }

  lemma {:induction false} SquaredIsPower(g: Form, i: nat)
    requires Element(g)
    ensures Canonical(Squared(g, i)) == Power(g, Pow2(i))
  {
    hide Primitive, PositiveDefinite, Discriminant, OddDiscriminant, Compose, Identity, IsReduced, Equivalent;
    if i == 0 {
      PowerOne(g);
    } else {
      SquaredIsPower(g, i - 1);
      var h := Squared(g, i - 1);
      PowerStep(h, h);
      PowerAdd(g, Pow2(i - 1), Pow2(i - 1));
      ComposeOfCanonical(h, h);
      ComposeCommutes(h, Canonical(h));
      ComposeOfCanonical(Canonical(h), h);
    }
  }

  lemma {:induction false} SquaredSquared(g: Form, i: nat, j: nat)
    requires Element(g)
    ensures Squared(Squared(g, i), j) == Squared(g, i + j)
    decreases j
  {
    hide Primitive, PositiveDefinite, Discriminant, OddDiscriminant, Compose, Identity, IsReduced, Equivalent;
    if j > 0 {
      SquaredSquared(g, i, j - 1);
    }
  }

  lemma SquareElement(g: Form)
    requires Element(g)
    ensures g.c % AllInputValueGCD(g.a, g.b) == 0 <==> Coprime(g)
  {
    if g.c % AllInputValueGCD(g.a, g.b) == 0 {
      PrimitiveCoprime(g);
    }
  }

  /** What the loop of pow keeps: x is g squared i times, the squarings so far succeeded, and the
      product collected so far times x^left is g^n. */
  ghost predicate PowInvariant(g: Form, n: nat, items: Form, x: Form, left: nat, i: nat)
    requires Element(g)
  {
    && Element(items) && Element(x) && Discriminant(items) == Discriminant(x) == Discriminant(g)
    && Canonical(items) == items
    && x == Squared(g, i) && Squarable(g, i)
    && BitLength(n) == i + BitLength(left) && Compose(items, Power(x, left)) == Power(g, n)
  }

  lemma PowStart(g: Form, n: nat)
    requires Element(g)
    ensures PowInvariant(g, n, Identity(Discriminant(g)), g, n, 0)
  {
    IdentityIsForm(Discriminant(g));
    ComposeIdentity(Power(g, n));
  }

  /** Moving one factor x from the power to the product when the exponent is odd. */
  lemma PowMultiply(g: Form, n: nat, items: Form, x: Form, left: nat, i: nat, items': Form)
    requires Element(g) && PowInvariant(g, n, items, x, left, i) && left > 0
    requires items' == if left % 2 == 1 then Compose(items, x) else items
    ensures Element(items') && Discriminant(items') == Discriminant(g) && Canonical(items') == items'
    ensures Compose(items', Power(x, 2 * (left / 2))) == Power(g, n)
  {
    hide Primitive, PositiveDefinite, Discriminant, OddDiscriminant, Compose, Identity, IsReduced, Squared;
    if left % 2 == 1 {
      var m := left - 1;
      PowerStep(x, items);
      ComposeCommutes(Power(x, m), x);
      ComposeAssociates(items, x, Power(x, m));
    }
  }

  lemma PowSquare(g: Form, n: nat, items: Form, x: Form, left: nat, i: nat, items': Form)
    requires Element(g) && PowInvariant(g, n, items, x, left, i) && left > 0 && Coprime(x)
    requires items' == if left % 2 == 1 then Compose(items, x) else items
    ensures PowInvariant(g, n, items', Compose(x, x), left / 2, i + 1)
  {
    hide Primitive, PositiveDefinite, Discriminant, OddDiscriminant, Compose, Identity, IsReduced, Power;
    PowMultiply(g, n, items, x, left, i, items');
    PowerOfSquare(x, left / 2);
    PowerStep(x, x);
  }

  lemma PowFails(g: Form, n: nat, items: Form, x: Form, left: nat, i: nat)
    requires Element(g) && PowInvariant(g, n, items, x, left, i) && left > 0 && !Coprime(x)
    ensures !Squarable(g, BitLength(n))
  {
    hide Primitive, PositiveDefinite, Discriminant, OddDiscriminant, Compose, Identity, IsReduced, Power, Coprime;
    assert !Coprime(Squared(g, i)) && i < BitLength(n);
  }

  lemma PowEnd(g: Form, n: nat, items: Form, x: Form, i: nat)
    requires Element(g) && PowInvariant(g, n, items, x, 0, i)
    ensures items == Power(g, n) && Squarable(g, BitLength(n))
  {
    ComposeIdentity(items);
    ComposeCommutes(items, Power(x, 0));
  }

  /** The source's pow for elements of the class group. It fails exactly when one of its squarings does
      (it squares once more than it needs), and otherwise returns the n-th power; exponents below zero
      count as zero. */
  method Pow(g: Form, n: int) returns (res: Option<Form>)
    requires Element(g)
    ensures var m := if n < 0 then 0 else n;
            && (res.Some? <==> Squarable(g, BitLength(m)))
            && (res.Some? ==> res.value == Power(g, m))
  {
    hide Primitive, PositiveDefinite, Discriminant, OddDiscriminant, Compose, Identity, IsReduced, Power, Squared;
    var x := g;
    var itemsProd := Identity(Discriminant(g));
    var e := n;
    ghost var m: nat := if n < 0 then 0 else n;
    ghost var left, i := m, 0;
    PowStart(g, m);
    while e > 0
      invariant if e > 0 then e == left else left == 0
      invariant PowInvariant(g, m, itemsProd, x, left, i)
      decreases e
    {
      ghost var items := itemsProd;
      if e % 2 == 1 {
        var product := Multiply(itemsProd, x);
        itemsProd := product.value;
      }
      SquareElement(x);
      var square := Square(x);
      if square.None? {
        PowFails(g, m, items, x, left, i);
        return None;
      }
      PowSquare(g, m, items, x, left, i, itemsProd);
      x := square.value;
      i := i + 1;
      e := e / 2;
      left := left / 2;
    }
    PowEnd(g, m, itemsProd, x, i);
    return Some(itemsProd);
  }

  // ----- repeated squaring -----

  function Insert(x: int, s: seq<int>): (r: seq<int>)
    ensures multiset(r) == multiset(s) + multiset{x}
    ensures (forall y :: y in r <==> y == x || y in s)
  {
    if s == [] then [x]
    else if x <= s[0] then [x] + s
    else
      assert s == [s[0]] + s[1..];
      [s[0]] + Insert(x, s[1..])
  }

  predicate Ascending(s: seq<int>) {
    forall i, j :: 0 <= i < j < |s| ==> s[i] <= s[j]
  }

  lemma {:induction false} InsertAscending(x: int, s: seq<int>)
    requires Ascending(s)
    ensures Ascending(Insert(x, s))
  {
    if s != [] && x > s[0] {
      InsertAscending(x, s[1..]);
      var r := Insert(x, s[1..]);
      forall j | 0 <= j < |r| ensures s[0] <= r[j] {
        assert r[j] in r;
      }
    }
  }

  /** The library's sort.Ints. */
  function SortInts(s: seq<int>): (r: seq<int>)
    ensures Ascending(r) && multiset(r) == multiset(s) && (forall y :: y in r <==> y in s)
  {
    if s == [] then []
    else
      InsertAscending(s[0], SortInts(s[1..]));
      assert s == [s[0]] + s[1..];
      Insert(s[0], SortInts(s[1..]))
  }

  /** pow(2) is one squaring, but it also needs the next squaring to succeed. */
  lemma PowTwoIsSquare(g: Form)
    requires Element(g)
    ensures Power(g, 2) == Compose(g, g) && BitLength(2) == 2
    ensures Squarable(g, 2) <==> Coprime(g) && Coprime(Compose(g, g))
  {
    hide Primitive, PositiveDefinite, Discriminant, OddDiscriminant, Compose, Identity, IsReduced, Coprime;
    PowerOne(g);
    assert Power(g, 2) == Compose(Power(g, 1), g);
    ComposeCommutes(Canonical(g), g);
    ComposeOfCanonical(g, g);
    assert Squared(g, 0) == g && Squared(g, 1) == Compose(g, g);
    assert BitLength(1) == 1;
  }

  /** The smallest of the requested powers, or zero: where the count of squarings starts. */
  function Start(powers: seq<int>): (base: int)
    ensures base <= 0 && (base == 0 || base in powers) && forall p :: p in powers ==> base <= p
  {
    if powers == [] then 0
    else
      var rest := Start(powers[1..]);
      assert powers == [powers[0]] + powers[1..];
      if powers[0] < rest then powers[0] else rest
  }

  /** The values iterateSquarings has collected so far, with squarings counted from base. */
  ghost predicate Collected(x: Form, base: int, powers: seq<int>, calculated: map<int, Form>)
    requires Element(x)
  {
    forall p :: (p in calculated <==> p in powers) &&
                (p in calculated ==> p >= base && calculated[p] == Squared(x, p - base))
  }

  /** x squared k times is known; square it n more times by pow(2). */
  method SquareTimes(ghost x: Form, ghost k: nat, start: Form, n: nat) returns (res: Option<Form>)
    requires Element(x) && start == Squared(x, k) && Reached(x, k)
    ensures res.Some? <==> Reached(x, k + n)
    ensures res.Some? ==> res.value == Squared(x, k + n)
  {
    hide Primitive, PositiveDefinite, Discriminant, OddDiscriminant, Compose, Identity, IsReduced, Power, Squared;
    var curr := start;
    for i := 0 to n
      invariant curr == Squared(x, k + i) && Reached(x, k + i)
    {
      SquaredChain(x, k + i);
      var next := Pow(curr, 2);
      if next.None? {
        ReachedShorter(x, k + i + 1, k + n);
        return None;
      }
      curr := next.value;
    }
    return Some(curr);
  }

  /** The chain of pow(2) steps gets as far as x squared k times: every step also tries one squaring more. */
  ghost predicate Reached(x: Form, k: nat)
    requires Element(x)
  {
    k > 0 ==> Squarable(x, k + 1)
  }

  lemma ReachedShorter(x: Form, m: nat, n: nat)
    requires Element(x) && m <= n
    ensures Reached(x, n) ==> Reached(x, m)
  {
  }

  lemma CollectedNothing(x: Form, base: int)
    requires Element(x)
    ensures Collected(x, base, [], map[])
  {
  }

  lemma CollectedOne(x: Form, base: int, sorted: seq<int>, i: nat, calculated: map<int, Form>, f: Form)
    requires Element(x) && i < |sorted| && Collected(x, base, sorted[..i], calculated)
    requires sorted[i] >= base && f == Squared(x, sorted[i] - base)
    ensures Collected(x, base, sorted[..i + 1], calculated[sorted[i] := f])
  {
    hide Element, Squared;
    assert sorted[..i + 1] == sorted[..i] + [sorted[i]];
  }

  lemma CollectedSame(x: Form, base: int, sorted: seq<int>, powers: seq<int>, calculated: map<int, Form>)
    requires Element(x) && Collected(x, base, sorted, calculated) && forall p :: p in sorted <==> p in powers
    ensures Collected(x, base, powers, calculated)
  {
    hide Element, Squared;
  }

  /** In ascending order, the count starts at the first power if that is negative. */
  lemma StartOfSorted(powers: seq<int>, sorted: seq<int>)
    requires Ascending(sorted) && sorted != [] && forall p :: p in sorted <==> p in powers
    ensures Start(powers) == if sorted[0] < 0 then sorted[0] else 0
  {
    assert sorted[0] in sorted && Start(powers) <= sorted[0];
    if Start(powers) != 0 {
      assert Start(powers) in sorted;
    }
  }

  /** The source's iterateSquarings: entry p is x squared p times, counted from the smallest power when that is
      negative, and the whole fails exactly when a squaring up to one past the largest of these numbers does. */
  method IterateSquarings(x: Form, powersToCalculate: seq<int>) returns (res: Option<map<int, Form>>)
    requires Element(x)
    ensures res.Some? <==> forall p :: p in powersToCalculate ==> Reached(x, p - Start(powersToCalculate))
    ensures res.Some? ==> Collected(x, Start(powersToCalculate), powersToCalculate, res.value)
  {
    hide Element, Reached, Squared, Collected, SortInts, Start;
    ghost var base := Start(powersToCalculate);
    ghost var count: nat := 0;
    var powersCalculated: map<int, Form> := map[];
    var previous := 0;
    var curr := x;
    SquaredZero(x);
    CollectedNothing(x, base);
    var sorted := SortInts(powersToCalculate);
    for idx := 0 to |sorted|
      invariant if idx == 0 then previous == 0 && count == 0 else previous == sorted[idx - 1] && count == previous - base
      invariant curr == Squared(x, count) && Reached(x, count)
      invariant forall p :: p in sorted[..idx] ==> p in powersToCalculate && Reached(x, p - base)
      invariant Collected(x, base, sorted[..idx], powersCalculated)
    {
      var power := sorted[idx];
      assert power in sorted;
      StartOfSorted(powersToCalculate, sorted);
      var next := SquareTimes(x, count, curr, if power < previous then 0 else power - previous);
      if next.None? {
        assert !Reached(x, power - base);
        return None;
      }
      curr := next.value;
      previous := power;
      count := power - base;
      CollectedOne(x, base, sorted, idx, powersCalculated, curr);
      assert sorted[..idx + 1] == sorted[..idx] + [power];
      powersCalculated := powersCalculated[power := curr];
    }
    assert sorted[..|sorted|] == sorted;
    CollectedSame(x, base, sorted, powersToCalculate, powersCalculated);
    return Some(powersCalculated);
  }

  lemma SquaredZero(x: Form)
    requires Element(x)
    ensures Squared(x, 0) == x && Reached(x, 0)
  {
  }

  /** One pow(2) step of the chain. */
  lemma SquaredChain(x: Form, k: nat)
    requires Element(x) && Reached(x, k)
    ensures Power(Squared(x, k), 2) == Squared(x, k + 1)
    ensures Squarable(Squared(x, k), BitLength(2)) <==> Reached(x, k + 1)
  {
    hide Primitive, PositiveDefinite, Discriminant, OddDiscriminant, Compose, Identity, IsReduced, Power, Coprime;
    PowTwoIsSquare(Squared(x, k));
    assert Squared(x, k + 1) == Compose(Squared(x, k), Squared(x, k));
    assert k == 0 || Squarable(x, k);
  }

  // ----- prime discriminants -----

  /** When minus the discriminant is prime, every reduced form has coprime a and b. */
  lemma PrimeDiscriminantCoprime(f: Form)
    requires PositiveDefinite(f) && IsReduced(f) && IsPrime(-Discriminant(f))
    ensures Coprime(f)
  {
    LeadingBelowDiscriminant(f.a, f.b, f.c);
    DivisorBelowPrime(f.a, f.b, f.c, AllInputValueGCD(f.a, f.b), -Discriminant(f));
  }

  lemma DivisorBelowPrime(a: int, b: int, c: int, e: int, p: int)
    requires e > 0 && a % e == 0 && b % e == 0 && p == 4 * (a * c) - b * b && 0 < a < p && IsPrime(p)
    ensures e == 1
  {
    DividesMultiple(a, c, e);
    DividesMultiple(a * c, 4, e);
    DividesMultiple(b, b, e);
    DividesSum(4 * (a * c), b * b, e);
    if e > a {
      QuotientUnique(a, e, 0);
      assert false;
    }
  }

  lemma LeadingBelowDiscriminant(a: int, b: int, c: int)
    requires a > 0 && -a < b <= a <= c
    ensures a < 4 * (a * c) - b * b
  {
    MonotoneProduct(a, c, a);
    AbsProduct(b, b);
    MonotoneProduct(Abs(b), a, Abs(b));
    MonotoneProduct(Abs(b), a, a);
    PositiveProduct(a, a);
    assert a * c >= a * a >= b * b;
  }

  lemma SquaredReduced(x: Form, i: nat)
    requires Element(x) && i > 0
    ensures PositiveDefinite(Squared(x, i)) && IsReduced(Squared(x, i))
  {
    hide PositiveDefinite, Primitive, OddDiscriminant, Discriminant, Compose, IsReduced;
  }

  lemma CoprimeAlongChain(x: Form, i: nat)
    requires Element(x) && Coprime(x) && IsPrime(-Discriminant(x))
    ensures Coprime(Squared(x, i))
  {
    hide Coprime, Element, IsPrime, Discriminant, PositiveDefinite, IsReduced, Compose;
    if i > 0 {
      SquaredReduced(x, i);
      PrimeDiscriminantCoprime(Squared(x, i));
    }
  }

  /** On a prime discriminant no squaring ever fails, so neither do pow and iterateSquarings. */
  lemma PrimeDiscriminantSquarable(x: Form, n: nat)
    requires Element(x) && Coprime(x) && IsPrime(-Discriminant(x))
    ensures Squarable(x, n)
  {
    hide Coprime, Squared, Element, IsPrime, Discriminant;
    forall i: nat | i < n ensures Coprime(Squared(x, i)) {
      CoprimeAlongChain(x, i);
    }
  }

  /** The squaring chain of the hash never fails when its discriminant is minus a prime. */
  lemma HashChainNeverFails(d: int, n: nat)
    requires d < 0 && d % 8 == 1 && IsPrime(-d)
    ensures Element(FromDiscriminant(2, 1, d)) && Squarable(FromDiscriminant(2, 1, d), n)
  {
    BaseForm(d);
    CoprimeIsPrimitive(FromDiscriminant(2, 1, d));
    PrimeDiscriminantSquarable(FromDiscriminant(2, 1, d), n);
  }
}
