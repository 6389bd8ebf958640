/** Polynomial identities over the integers, stated on plain numbers so that the verifier
    can check each by normalising a few monomials. */
module Algebra {

  lemma ProductOfSums(k: int, x: int, y: int, z: int, w: int)
    ensures k * (x + y) * (z + w) == k * x * z + k * x * w + k * y * z + k * y * w
  {
  }

  lemma Regroup(k: int, p: int, x: int, r: int, y: int)
    ensures k * (p * x) * (r * y) == (k * p * r) * x * y
    ensures k * (r * y) * (p * x) == (k * p * r) * x * y
  {
  }

  lemma SumTimesPair(u: int, v: int, w: int, x: int, y: int)
    ensures (u + v + w) * x * y == u * x * y + v * x * y + w * x * y
  {
  }

  /** k*(p*x + q*y)*(r*z + s*w) written by its four monomials. */
  lemma ProductOfLinears(k: int, p: int, q: int, r: int, s: int, x: int, y: int, z: int, w: int)
    ensures k * (p * x + q * y) * (r * z + s * w)
         == (k * p * r) * x * z + (k * p * s) * x * w + (k * q * r) * y * z + (k * q * s) * y * w
  {
    ProductOfSums(k, p * x, q * y, r * z, s * w);
    Regroup(k, p, x, r, z);
    Regroup(k, p, x, s, w);
    Regroup(k, q, y, r, z);
    Regroup(k, q, y, s, w);
  }

  lemma ProductOfTriples(x: int, y: int, z: int, u: int, v: int, w: int)
    ensures (x + y + z) * (u + v + w)
         == x * u + x * v + x * w + y * u + y * v + y * w + z * u + z * v + z * w
  {
  }

  /** A form a*x*x + b*x*y + c*y*y after the substitution (p q; r s). */
  lemma ValueIdentity(a: int, b: int, c: int, p: int, q: int, r: int, s: int, x: int, y: int)
    ensures a * (p * x + q * y) * (p * x + q * y) + b * (p * x + q * y) * (r * x + s * y)
              + c * (r * x + s * y) * (r * x + s * y)
         == (a * p * p + b * p * r + c * r * r) * x * x
              + (2 * a * p * q + b * (p * s + r * q) + 2 * c * r * s) * x * y
              + (a * q * q + b * q * s + c * s * s) * y * y
  {
    ProductOfLinears(a, p, q, p, q, x, y, x, y);
    ProductOfLinears(b, p, q, r, s, x, y, x, y);
    ProductOfLinears(c, r, s, r, s, x, y, x, y);
    SumTimesPair(a * p * p, b * p * r, c * r * r, x, x);
    SumTimesPair(a * q * q, b * q * s, c * s * s, y, y);
    MiddleTerms(a, b, c, p, q, r, s);
    SumTimesPair(2 * a * p * q, b * (p * s + r * q), 2 * c * r * s, x, y);
    CrossTerms(a * p * q, b * p * s, b * r * q, c * r * s, x, y);
  }

  lemma MiddleTerms(a: int, b: int, c: int, p: int, q: int, r: int, s: int)
    ensures 2 * a * p * q == 2 * (a * p * q) && 2 * c * r * s == 2 * (c * r * s)
    ensures b * (p * s + r * q) == b * p * s + b * r * q
    ensures a * q * p == a * p * q && b * q * r == b * r * q && c * s * r == c * r * s
  {
  }

  lemma CrossTerms(u: int, v: int, w: int, z: int, x: int, y: int)
    ensures (2 * u) * x * y == u * x * y + u * y * x
    ensures (v + w) * x * y == v * x * y + w * y * x
    ensures (2 * z) * x * y == z * x * y + z * y * x
  {
  }

  /** The polar form 2*a*x*z + b*(x*w + y*z) + 2*c*y*w after the substitution (p q; r s). */
  lemma PolarIdentity(a: int, b: int, c: int, p: int, q: int, r: int, s: int, x: int, y: int, z: int, w: int)
    ensures 2 * a * (p * x + q * y) * (p * z + q * w)
              + b * ((p * x + q * y) * (r * z + s * w) + (r * x + s * y) * (p * z + q * w))
              + 2 * c * (r * x + s * y) * (r * z + s * w)
         == 2 * (a * p * p + b * p * r + c * r * r) * x * z
              + (2 * a * p * q + b * (p * s + r * q) + 2 * c * r * s) * (x * w + y * z)
              + 2 * (a * q * q + b * q * s + c * s * s) * y * w
  {
    PolarSquarePart(a, p, q, x, y, z, w);
    PolarCrossPart(b, p, q, r, s, x, y, z, w);
    PolarSquarePart(c, r, s, x, y, z, w);
    DoubledSum(a * p * p, b * p * r, c * r * r, x, z);
    DoubledSum(a * q * q, b * q * s, c * s * s, y, w);
    SumTimes(2 * a * p * q, b * (p * s + r * q), 2 * c * r * s, x * w + y * z);
  }

  lemma DoubledSum(u: int, v: int, t: int, x: int, z: int)
    ensures 2 * (u + v + t) * x * z == 2 * (u * x * z) + 2 * (v * x * z) + 2 * (t * x * z)
  {
    SumTimesPair(u, v, t, x, z);
    Doubled(u + v + t, x, z);
  }

  lemma Doubled(k: int, x: int, z: int)
    ensures 2 * k * x * z == 2 * (k * x * z)
  {
  }

  lemma SumTimes(u: int, v: int, t: int, x: int)
    ensures (u + v + t) * x == u * x + v * x + t * x
  {
  }

  lemma PolarSquarePart(a: int, p: int, q: int, x: int, y: int, z: int, w: int)
    ensures 2 * a * (p * x + q * y) * (p * z + q * w)
         == 2 * (a * p * p * x * z) + (2 * a * p * q) * (x * w + y * z) + 2 * (a * q * q * y * w)
  {
    Doubled(a, p * x + q * y, p * z + q * w);
    ProductOfLinears(a, p, q, p, q, x, y, z, w);
    Swap(a, q, p);
    PairTimes(2 * a * p * q, x, w, y, z);
    Doubled(a, p, q);
    Doubled(a * p * q, x, w);
    Doubled(a * p * q, y, z);
  }

  lemma PairTimes(k: int, x: int, w: int, y: int, z: int)
    ensures k * (x * w + y * z) == k * x * w + k * y * z
  {
  }

  lemma PolarCrossPart(b: int, p: int, q: int, r: int, s: int, x: int, y: int, z: int, w: int)
    ensures b * ((p * x + q * y) * (r * z + s * w) + (r * x + s * y) * (p * z + q * w))
         == 2 * (b * p * r * x * z) + (b * (p * s + r * q)) * (x * w + y * z) + 2 * (b * q * s * y * w)
  {
    ProductOfLinears(b, p, q, r, s, x, y, z, w);
    ProductOfLinears(b, r, s, p, q, x, y, z, w);
    PairTimes(b, p * x + q * y, r * z + s * w, r * x + s * y, p * z + q * w);
    Swap(b, r, p);
    Swap(b, s, q);
    Swap(b, s, p);
    Swap(b, q, r);
    PairTimes(b, p, s, r, q);
    TwoTimesPair(b * p * s, b * r * q, x, w, y, z);
  }

  lemma TwoTimesPair(u: int, v: int, x: int, w: int, y: int, z: int)
    ensures (u + v) * (x * w + y * z) == u * x * w + v * x * w + u * y * z + v * y * z
  {
    PairTimes(u + v, x, w, y, z);
  }

  lemma Swap(k: int, x: int, y: int)
    ensures k * x * y == k * y * x
  {
  }

  lemma PairMonomials(k: int, l: int, x: int, y: int, z: int, w: int)
    ensures (k * x * y) * (l * z * w) == (k * (x * z)) * (l * (y * w))
    ensures (k * x * y) * (l * z * w) == (k * l) * ((x * z) * (y * w))
  {
  }

  /** The discriminant of a form is multiplied by the squared determinant of a substitution. */
  lemma DiscriminantIdentity(a: int, b: int, c: int, p: int, q: int, r: int, s: int)
    ensures (2 * a * p * q + b * (p * s + r * q) + 2 * c * r * s) * (2 * a * p * q + b * (p * s + r * q) + 2 * c * r * s)
              - 4 * ((a * p * p + b * p * r + c * r * r) * (a * q * q + b * q * s + c * s * s))
         == (b * b - 4 * (a * c)) * ((p * s - q * r) * (p * s - q * r))
  {
    MiddleCoefficient(a, b, c, p, q, r, s);
    OuterCoefficients(a, b, c, p, q, r, s);
    XYuv(p, q, r, s);
    DiscriminantInProducts(a, b, c, p * q, r * s, p * s, q * r);
  }

  lemma XYuv(p: int, q: int, r: int, s: int)
    ensures (p * q) * (r * s) == (p * s) * (q * r)
  {
  }

  lemma MiddleCoefficient(a: int, b: int, c: int, p: int, q: int, r: int, s: int)
    ensures 2 * a * p * q + b * (p * s + r * q) + 2 * c * r * s
         == 2 * (a * (p * q)) + b * (p * s + q * r) + 2 * (c * (r * s))
  {
  }

  lemma OuterCoefficients(a: int, b: int, c: int, p: int, q: int, r: int, s: int)
    ensures (a * p * p + b * p * r + c * r * r) * (a * q * q + b * q * s + c * s * s)
         == (a * (p * q)) * (a * (p * q)) + (a * (p * q)) * (b * (p * s)) + (a * c) * ((p * s) * (p * s))
              + (a * (p * q)) * (b * (q * r)) + (b * b) * ((p * s) * (q * r)) + (c * (r * s)) * (b * (p * s))
              + (a * c) * ((q * r) * (q * r)) + (c * (r * s)) * (b * (q * r)) + (c * (r * s)) * (c * (r * s))
  {
    ProductOfTriples(a * p * p, b * p * r, c * r * r, a * q * q, b * q * s, c * s * s);
    OuterProducts(a, b, c, p, q, r, s);
  }

  lemma OuterProducts(a: int, b: int, c: int, p: int, q: int, r: int, s: int)
    ensures (a * p * p) * (a * q * q) == (a * (p * q)) * (a * (p * q))
    ensures (a * p * p) * (b * q * s) == (a * (p * q)) * (b * (p * s))
    ensures (a * p * p) * (c * s * s) == (a * c) * ((p * s) * (p * s))
    ensures (b * p * r) * (a * q * q) == (a * (p * q)) * (b * (q * r))
    ensures (b * p * r) * (b * q * s) == (b * b) * ((p * s) * (q * r))
    ensures (b * p * r) * (c * s * s) == (c * (r * s)) * (b * (p * s))
    ensures (c * r * r) * (a * q * q) == (a * c) * ((q * r) * (q * r))
    ensures (c * r * r) * (b * q * s) == (c * (r * s)) * (b * (q * r))
    ensures (c * r * r) * (c * s * s) == (c * (r * s)) * (c * (r * s))
    ensures (p * q) * (r * s) == (p * s) * (q * r)
  {
    PairMonomials(a, a, p, p, q, q);
    PairMonomials(a, b, p, p, q, s);
    PairMonomials(a, c, p, p, s, s);
    PairMonomials(a, b, q, q, p, r);
    PairMonomials(b, b, p, r, s, q);
    PairMonomials(c, b, s, s, r, p);
    PairMonomials(a, c, q, q, r, r);
    PairMonomials(c, b, r, r, s, q);
    PairMonomials(c, c, r, r, s, s);
    PairMonomials(1, 1, p, q, s, r);
    Commute4(a, b, c, p, q, r, s);
  }

  lemma Commute4(a: int, b: int, c: int, p: int, q: int, r: int, s: int)
    ensures q * p == p * q && s * r == r * s && s * p == p * s && r * q == q * r && c * a == a * c
    ensures b * r * p == b * p * r && b * s * q == b * q * s
    ensures (a * p * p) * (b * q * s) == (b * q * s) * (a * p * p)
    ensures (b * p * r) * (a * q * q) == (a * q * q) * (b * p * r)
    ensures (b * p * r) * (c * s * s) == (c * s * s) * (b * p * r)
    ensures (c * r * r) * (a * q * q) == (a * q * q) * (c * r * r)
  {
  }

  lemma DiscriminantInProducts(a: int, b: int, c: int, X: int, Y: int, u: int, v: int)
    requires X * Y == u * v
    ensures (2 * (a * X) + b * (u + v) + 2 * (c * Y)) * (2 * (a * X) + b * (u + v) + 2 * (c * Y))
              - 4 * ((a * X) * (a * X) + (a * X) * (b * u) + (a * c) * (u * u)
                     + (a * X) * (b * v) + (b * b) * (u * v) + (c * Y) * (b * u)
                     + (a * c) * (v * v) + (c * Y) * (b * v) + (c * Y) * (c * Y))
         == (b * b - 4 * (a * c)) * ((u - v) * (u - v))
  {
    SquareOfTriple(b, u, v, a * X, c * Y);
    PairMonomials(1, 1, a, X, c, Y);
    SquaredDifference(b, u, v, a * c);
  }

  lemma SquareOfTriple(b: int, u: int, v: int, R: int, S: int)
    ensures (2 * R + b * (u + v) + 2 * S) * (2 * R + b * (u + v) + 2 * S)
         == 4 * (R * R) + 4 * (R * (b * u)) + 4 * (R * (b * v)) + 8 * (R * S)
              + 4 * (S * (b * u)) + 4 * (S * (b * v)) + 4 * (S * S) + (b * b) * ((u + v) * (u + v))
  {
  }

  lemma SquaredDifference(b: int, u: int, v: int, k: int)
    ensures (b * b) * ((u + v) * (u + v)) + 8 * (k * (u * v)) - 4 * ((b * b) * (u * v)) - 4 * (k * (u * u)) - 4 * (k * (v * v))
         == (b * b - 4 * k) * ((u - v) * (u - v))
  {
  }

  lemma DeterminantIdentity(p: int, q: int, r: int, s: int, x: int, y: int, z: int, w: int)
    ensures (p * x + q * z) * (r * y + s * w) - (p * y + q * w) * (r * x + s * z)
         == (p * s - q * r) * (x * w - y * z)
  {
    ProductOfLinears(1, p, q, r, s, x, z, y, w);
    ProductOfLinears(1, p, q, r, s, y, w, x, z);
    ProductOfDifferences(p * s, q * r, x * w, y * z);
    SplitPairs(p, r, x, y);
    SplitPairs(q, s, z, w);
    SplitPairs(p, s, x, w);
    SplitPairs(p, s, y, z);
    SplitPairs(q, r, z, y);
    SplitPairs(q, r, w, x);
  }

  lemma SplitPairs(p: int, r: int, x: int, y: int)
    ensures 1 * p * r * x * y == (p * r) * (x * y)
    ensures 1 * p * r * y * x == (p * r) * (x * y)
  {
  }

  lemma ProductOfDifferences(x: int, y: int, z: int, w: int)
    ensures (x - y) * (z - w) == x * z - x * w - y * z + y * w
  {
  }

  lemma InverseIdentity(p: int, q: int, r: int, s: int)
    ensures p * s + q * -r == p * s - q * r && p * -q + q * p == 0
    ensures r * s + s * -r == 0 && r * -q + s * p == p * s - q * r
    ensures s * p - (-q) * (-r) == p * s - q * r
  {
  }

  lemma CompleteSquare(a: int, b: int, c: int, x: int, y: int)
    ensures 4 * ((a * x * x + b * x * y + c * y * y) * a)
         == (2 * a * x + b * y) * (2 * a * x + b * y) + (-(b * b - 4 * (a * c))) * (y * y)
  {
    var u, v := a * x, b * y;
    assert 2 * a * x == 2 * u;
    assert (2 * u + v) * (2 * u + v) == 4 * (u * u) + 4 * (u * v) + v * v;
    assert (a * x * x) * a == u * u && (b * x * y) * a == u * v by {
      Regroup(1, a, x, a, x);
    }
    assert v * v == (b * b) * (y * y) && (c * y * y) * a == (a * c) * (y * y);
    SumTimesPair(a * x * x, b * x * y, c * y * y, a, 1);
    assert (-(b * b - 4 * (a * c))) * (y * y) == 4 * ((a * c) * (y * y)) - (b * b) * (y * y);
  }

  lemma TranslateIdentity(a: int, b: int, c: int, n: int)
    ensures a * 1 * 1 + b * 1 * 0 + c * 0 * 0 == a
    ensures 2 * a * 1 * n + b * (1 * 1 + 0 * n) + 2 * c * 0 * 1 == b + 2 * n * a
    ensures a * n * n + b * n * 1 + c * 1 * 1 == c + a * n * n + b * n
    ensures 1 * 1 - n * 0 == 1
  {
  }

  lemma TurnIdentity(a: int, b: int, c: int, n: int)
    ensures a * 0 * 0 + b * 0 * 1 + c * 1 * 1 == c
    ensures 2 * a * 0 * -1 + b * (0 * n + 1 * -1) + 2 * c * 1 * n == -b + 2 * n * c
    ensures a * -1 * -1 + b * -1 * n + c * n * n == c * n * n - b * n + a
    ensures 0 * n - (-1) * 1 == 1
  {
  }

  lemma ValueByProducts(a: int, b: int, c: int, x: int, y: int)
    ensures a * x * x + b * x * y + c * y * y == a * (x * x) + b * (x * y) + c * (y * y)
  {
  }

  lemma TripleScaled(a: int, x: int, y: int, z: int)
    ensures a * (x - y + z) == a * x - a * y + a * z
  {
  }

  lemma UpperTriangular(a: int, b: int, c: int, p: int, q: int, s: int)
    requires (p == 1 && s == 1) || (p == -1 && s == -1)
    ensures a * p * p + b * p * 0 + c * 0 * 0 == a
    ensures 2 * a * p * q + b * (p * s + 0 * q) + 2 * c * 0 * s == b + a * 2 * (p * q)
  {
  }

  lemma LowerExchange(a: int, b: int, c: int, q: int, r: int, s: int)
    requires (q == 1 && r == -1) || (q == -1 && r == 1)
    ensures a * 0 * 0 + b * 0 * r + c * r * r == c
    ensures 2 * a * 0 * q + b * (0 * s + r * q) + 2 * c * r * s == -b + c * 2 * (r * s)
  {
  }

  lemma CornerValue(a: int, b: int, c: int, p: int, r: int)
    requires (p == 1 || p == -1) && (r == 1 || r == -1)
    ensures a * p * p + b * p * r + c * r * r == a + c + (if p == r then b else -b)
  {
  }
}
