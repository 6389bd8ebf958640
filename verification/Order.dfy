/** Arithmetic in the quadratic order of a discriminant: the numbers x + y*tau with tau*tau = sigma*tau + nu. */
module Order {
  import Algebra

  datatype Ring = Ring(sigma: int, nu: int)

  datatype Num = Num(x: int, y: int)

  function Add(z: Num, w: Num): Num {
    Num(z.x + w.x, z.y + w.y)
  }

  function Scale(n: int, z: Num): Num {
    Num(n * z.x, n * z.y)
  }

  function Mul(R: Ring, z: Num, w: Num): Num {
    Num(z.x * w.x + R.nu * (z.y * w.y), z.x * w.y + z.y * w.x + R.sigma * (z.y * w.y))
  }

  function Norm(R: Ring, z: Num): int {
    z.x * z.x + R.sigma * (z.x * z.y) - R.nu * (z.y * z.y)
  }

  /** The oriented area spanned by two numbers. */
  function Wedge(z: Num, w: Num): int {
    z.x * w.y - z.y * w.x
  }

  lemma MulCommutes(R: Ring, z: Num, w: Num)
    ensures Mul(R, z, w) == Mul(R, w, z)
  {
    assert z.x * w.x == w.x * z.x && z.y * w.y == w.y * z.y;
    assert z.x * w.y == w.y * z.x && z.y * w.x == w.x * z.y;
  }

  lemma MulDistributes(R: Ring, z: Num, v: Num, w: Num)
    ensures Mul(R, z, Add(v, w)) == Add(Mul(R, z, v), Mul(R, z, w))
    ensures Mul(R, Add(v, w), z) == Add(Mul(R, v, z), Mul(R, w, z))
  {
    DistributeCoordinates(R.sigma, R.nu, z.x, z.y, v.x, v.y, w.x, w.y);
    MulCommutes(R, z, Add(v, w));
    MulCommutes(R, z, v);
    MulCommutes(R, z, w);
  }

  lemma DistributeCoordinates(s: int, n: int, a: int, b: int, c: int, d: int, e: int, f: int)
    ensures a * (c + e) + n * (b * (d + f)) == (a * c + n * (b * d)) + (a * e + n * (b * f))
    ensures a * (d + f) + b * (c + e) + s * (b * (d + f)) == (a * d + b * c + s * (b * d)) + (a * f + b * e + s * (b * f))
  {
    assert b * (d + f) == b * d + b * f;
    assert n * (b * d + b * f) == n * (b * d) + n * (b * f);
    assert s * (b * d + b * f) == s * (b * d) + s * (b * f);
  }

  lemma MulScale(R: Ring, n: int, z: Num, w: Num)
    ensures Mul(R, Scale(n, z), w) == Scale(n, Mul(R, z, w))
    ensures Mul(R, z, Scale(n, w)) == Scale(n, Mul(R, z, w))
  {
    ScaleCoordinates(R.sigma, R.nu, n, z.x, z.y, w.x, w.y);
    ScaleCoordinates(R.sigma, R.nu, n, w.x, w.y, z.x, z.y);
    MulCommutes(R, z, Scale(n, w));
    MulCommutes(R, z, w);
  }

  lemma ScaleCoordinates(s: int, n: int, k: int, a: int, b: int, c: int, d: int)
    ensures (k * a) * c + n * ((k * b) * d) == k * (a * c + n * (b * d))
    ensures (k * a) * d + (k * b) * c + s * ((k * b) * d) == k * (a * d + b * c + s * (b * d))
  {
    assert (k * b) * d == k * (b * d);
    assert n * (k * (b * d)) == k * (n * (b * d)) && s * (k * (b * d)) == k * (s * (b * d));
    assert (k * a) * c == k * (a * c) && (k * a) * d == k * (a * d) && (k * b) * c == k * (b * c);
  }

  lemma ScaleAdd(n: int, z: Num, w: Num)
    ensures Scale(n, Add(z, w)) == Add(Scale(n, z), Scale(n, w))
  {
  }

  lemma ScaleScale(m: int, n: int, z: Num)
    ensures Scale(m, Scale(n, z)) == Scale(m * n, z)
    ensures Scale(m, Scale(n, z)) == Scale(n, Scale(m, z))
  {
    assert m * (n * z.x) == (m * n) * z.x == n * (m * z.x);
    assert m * (n * z.y) == (m * n) * z.y == n * (m * z.y);
  }

  lemma MulAssociates(R: Ring, z: Num, v: Num, w: Num)
    ensures Mul(R, Mul(R, z, v), w) == Mul(R, z, Mul(R, v, w))
  {
    AssociateFirst(R.sigma, R.nu, z.x, z.y, v.x, v.y, w.x, w.y);
    AssociateSecond(R.sigma, R.nu, z.x, z.y, v.x, v.y, w.x, w.y);
  }

  lemma AssociateFirst(s: int, n: int, a: int, b: int, c: int, d: int, e: int, f: int)
    ensures (a * c + n * (b * d)) * e + n * ((a * d + b * c + s * (b * d)) * f)
         == a * (c * e + n * (d * f)) + n * (b * (c * f + d * e + s * (d * f)))
  {
    TwoTerms(a, b, c, d, n, e);
    ThreeTermsRight(a, b, c, d, s, f);
    TwoTermsLeft(c, d, n, a, e, f);
    ThreeTermsLeft(c, d, s, b, e, f);
    ThreeTerms(n, a * (d * f), b * (c * f), s * (b * (d * f)));
    ThreeTerms(n, b * (c * f), b * (d * e), s * (b * (d * f)));
  }

  lemma AssociateSecond(s: int, n: int, a: int, b: int, c: int, d: int, e: int, f: int)
    ensures (a * c + n * (b * d)) * f + (a * d + b * c + s * (b * d)) * e + s * ((a * d + b * c + s * (b * d)) * f)
         == a * (c * f + d * e + s * (d * f)) + b * (c * e + n * (d * f)) + s * (b * (c * f + d * e + s * (d * f)))
  {
    TwoTerms(a, b, c, d, n, f);
    ThreeTermsRight(a, b, c, d, s, e);
    ThreeTermsRight(a, b, c, d, s, f);
    ThreeTermsLeft(c, d, s, a, e, f);
    TwoTermsLeft(c, d, n, b, e, f);
    ThreeTermsLeft(c, d, s, b, e, f);
    ThreeTerms(s, a * (d * f), b * (c * f), s * (b * (d * f)));
    ThreeTerms(s, b * (c * f), b * (d * e), s * (b * (d * f)));
  }

  lemma TwoTerms(a: int, b: int, c: int, d: int, n: int, e: int)
    ensures (a * c + n * (b * d)) * e == a * (c * e) + n * (b * (d * e))
  {
    assert (a * c + n * (b * d)) * e == (a * c) * e + (n * (b * d)) * e;
  }

  lemma TwoTermsLeft(c: int, d: int, n: int, a: int, e: int, f: int)
    ensures a * (c * e + n * (d * f)) == a * (c * e) + n * (a * (d * f))
  {
    assert a * (c * e + n * (d * f)) == a * (c * e) + a * (n * (d * f));
  }

  lemma ThreeTermsRight(a: int, b: int, c: int, d: int, s: int, f: int)
    ensures (a * d + b * c + s * (b * d)) * f == a * (d * f) + b * (c * f) + s * (b * (d * f))
  {
    assert (a * d + b * c + s * (b * d)) * f == (a * d) * f + (b * c) * f + (s * (b * d)) * f;
  }

  lemma ThreeTermsLeft(c: int, d: int, s: int, b: int, e: int, f: int)
    ensures b * (c * f + d * e + s * (d * f)) == b * (c * f) + b * (d * e) + s * (b * (d * f))
  {
    assert b * (c * f + d * e + s * (d * f)) == b * (c * f) + b * (d * e) + b * (s * (d * f));
  }

  lemma ThreeTerms(s: int, x: int, y: int, z: int)
    ensures s * (x + y + z) == s * x + s * y + s * z
  {
  }

  /** Multiplication by r scales every area by the norm of r. */
  lemma WedgeMul(R: Ring, r: Num, z: Num, w: Num)
    ensures Wedge(Mul(R, r, z), Mul(R, r, w)) == Norm(R, r) * Wedge(z, w)
  {
    WedgeIdentity(R.sigma, R.nu, r.x, r.y, z.x, z.y, w.x, w.y);
  }

  /** r*z is the image of z under the matrix (p n*q; q p + s*q), whose determinant is the norm. */
  lemma WedgeIdentity(s: int, n: int, p: int, q: int, a: int, b: int, c: int, d: int)
    ensures (p * a + n * (q * b)) * (p * d + q * c + s * (q * d)) - (p * b + q * a + s * (q * b)) * (p * c + n * (q * d))
         == (p * p + s * (p * q) - n * (q * q)) * (a * d - b * c)
  {
    var u, v := n * q, p + s * q;
    assert n * (q * b) == u * b && n * (q * d) == u * d;
    assert p * d + q * c + s * (q * d) == q * c + v * d && p * b + q * a + s * (q * b) == q * a + v * b;
    assert p * p + s * (p * q) - n * (q * q) == p * v - u * q;
    Algebra.DeterminantIdentity(p, u, q, v, a, c, b, d);
    assert (q * a + v * b) * (p * c + u * d) == (p * c + u * d) * (q * a + v * b);
  }

  lemma NormMul(R: Ring, z: Num, w: Num)
    ensures Norm(R, Mul(R, z, w)) == Norm(R, z) * Norm(R, w)
  {
    // The norm of z is the area of z and tau*z.
    var tau := Num(0, 1);
    NormIsArea(R, Mul(R, z, w));
    NormIsArea(R, w);
    MulAssociates(R, z, w, tau);
    WedgeMul(R, z, w, Mul(R, w, tau));
  }

  lemma NormIsArea(R: Ring, z: Num)
    ensures Norm(R, z) == Wedge(z, Mul(R, z, Num(0, 1)))
  {
    assert z.x * (z.x + R.sigma * z.y) == z.x * z.x + R.sigma * (z.x * z.y);
    assert z.y * (R.nu * z.y) == R.nu * (z.y * z.y);
  }

  // ----- orders of negative discriminant have no zero divisors -----

  predicate Definite(R: Ring) {
    R.sigma * R.sigma + 4 * R.nu < 0
  }

  predicate Nonzero(z: Num) {
    z.x != 0 || z.y != 0
  }

  lemma NormPositive(R: Ring, z: Num)
    requires Definite(R) && Nonzero(z)
    ensures Norm(R, z) > 0
  {
    var v, d := 2 * z.x + R.sigma * z.y, -(R.sigma * R.sigma + 4 * R.nu);
    FourNorms(R.sigma, R.nu, z.x, z.y);
    assert v * v >= 0 && z.y * z.y >= 0;
    if z.y != 0 {
      assert z.y * z.y > 0;
      assert d * (z.y * z.y) > 0;
    } else {
      assert v == 2 * z.x && z.x * z.x > 0;
    }
  }

  lemma FourNorms(s: int, n: int, x: int, y: int)
    ensures 4 * (x * x + s * (x * y) - n * (y * y)) == (2 * x + s * y) * (2 * x + s * y) + (-(s * s + 4 * n)) * (y * y)
  {
    var v := s * y;
    assert (2 * x + v) * (2 * x + v) == 4 * (x * x) + 4 * (x * v) + v * v;
    assert x * v == s * (x * y) && v * v == (s * s) * (y * y);
    assert (-(s * s + 4 * n)) * (y * y) == -((s * s) * (y * y)) - 4 * (n * (y * y));
  }

  lemma NonzeroMul(R: Ring, z: Num, w: Num)
    requires Definite(R) && Nonzero(z) && Nonzero(w)
    ensures Nonzero(Mul(R, z, w))
  {
    NormPositive(R, z);
    NormPositive(R, w);
    NormMul(R, z, w);
    PositiveTimes(Norm(R, z), Norm(R, w));
    NormOfZero(R, Mul(R, z, w));
  }

  lemma NormOfZero(R: Ring, z: Num)
    ensures !Nonzero(z) ==> Norm(R, z) == 0
  {
  }

  lemma PositiveTimes(x: int, y: int)
    requires x > 0 && y > 0
    ensures x * y > 0
  {
  }

  lemma MulCancel(R: Ring, z: Num, v: Num, w: Num)
    requires Definite(R) && Nonzero(z) && Mul(R, z, v) == Mul(R, z, w)
    ensures v == w
  {
    var e := Add(v, Scale(-1, w));
    MulDistributes(R, z, v, Scale(-1, w));
    MulScale(R, -1, z, w);
    if Nonzero(e) {
      NonzeroMul(R, z, e);
      assert false;
    }
  }
}
