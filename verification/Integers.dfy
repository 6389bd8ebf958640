/** Integer facts shared by the class-group and the sieve modules: quotients as the
    source computes them, exact division, and common divisors with their Bezout identity. */
module Integers {

  function Abs(x: int): nat {
    if x < 0 then -x else x
  }

  /** Quotient rounded towards zero, as the library's QuoRem computes it. */
  function TruncatedQuotient(x: int, y: int): int
    requires y != 0
  {
    var q: int := Abs(x) / Abs(y);
    if (x < 0) == (y < 0) then q else -q
  }

  /** The source's floorDivision: truncate, then step down when remainder and divisor differ in sign. */
  function FloorDivision(x: int, y: int): (q: int)
    requires y != 0
    ensures y > 0 ==> y * q <= x < y * q + y
    ensures y < 0 ==> y * q + y < x <= y * q
    ensures y > 0 ==> q == x / y
  {
    var q := TruncatedQuotient(x, y);
    var r := x - q * y;
    TruncatedRemainder(x, y, q);
    var f := if (r > 0 && y < 0) || (r < 0 && y > 0) then q - 1 else q;
    FloorBounds(x, y, q, f);
    f
  }

  /** The truncating quotient as its size and its sign. */
  lemma QuotientParts(x: int, y: int, q: int) returns (m: nat)
    requires y != 0 && q == TruncatedQuotient(x, y)
    ensures Abs(y) * m <= Abs(x) < Abs(y) * m + Abs(y)
    ensures q == if (x < 0) == (y < 0) then m else 0 - m
  {
    EuclideanBounds(Abs(x), Abs(y));
    m := Abs(x) / Abs(y);
  }

  lemma TruncatedRemainder(x: int, y: int, q: int)
    requires y != 0 && q == TruncatedQuotient(x, y)
    ensures var r := x - q * y; Abs(r) < Abs(y) && (r > 0 ==> x > 0) && (r < 0 ==> x < 0)
  {
    hide TruncatedQuotient;
    var m := QuotientParts(x, y, q);
    SignedRemainder(x, y, m, q);
  }

  lemma SignedRemainder(x: int, y: int, m: nat, q: int)
    requires y != 0 && Abs(y) * m <= Abs(x) < Abs(y) * m + Abs(y)
    requires q == if (x < 0) == (y < 0) then m else 0 - m
    ensures var r := x - q * y; Abs(r) < Abs(y) && (r > 0 ==> x > 0) && (r < 0 ==> x < 0)
  {
    SignedProduct(x, y, m);
  }

  lemma EuclideanBounds(n: nat, d: nat)
    requires d > 0
    ensures n / d >= 0 && d * (n / d) <= n < d * (n / d) + d
  {
  }

  lemma SignedProduct(x: int, y: int, m: int)
    ensures (x < 0) == (y < 0) ==> m * y == if x < 0 then -(Abs(y) * m) else Abs(y) * m
    ensures (x < 0) != (y < 0) ==> -m * y == if x < 0 then -(Abs(y) * m) else Abs(y) * m
  {
    if y < 0 {
      assert Abs(y) * m == -y * m;
      assert -m * y == -y * m;
    } else {
      assert -m * y == -(y * m);
    }
  }

  lemma FloorBounds(x: int, y: int, q: int, f: int)
    requires y != 0
    requires Abs(x - q * y) < Abs(y)
    requires var r := x - q * y; f == if (r > 0 && y < 0) || (r < 0 && y > 0) then q - 1 else q
    ensures y > 0 ==> y * f <= x < y * f + y && f == x / y
    ensures y < 0 ==> y * f + y < x <= y * f
  {
    assert y * (q - 1) == y * q - y;
    assert q * y == y * q;
    if y > 0 {
      QuotientUnique(x, y, f);
    }
  }

  lemma QuotientUnique(x: int, y: int, q: int)
    requires y > 0 && y * q <= x < y * q + y
    ensures q == x / y
  {
    var d := x / y;
    assert y * d <= x < y * d + y;
    assert y * (q - d) == y * q - y * d;
    SmallMultiple(y, q - d);
  }

  lemma SmallMultiple(y: int, k: int)
    requires -y < y * k < y
    ensures k == 0
  {
    if k >= 1 {
      MonotoneProduct(1, k, y);
      assert false;
    } else if k <= -1 {
      MonotoneProduct(k, -1, y);
      assert false;
    }
  }

  // ----- exact division by a positive number -----

  lemma DivIntro(n: int, d: int, k: int)
    requires d > 0 && n == d * k
    ensures n % d == 0 && n / d == k
  {
    QuotientUnique(n, d, k);
  }

  lemma DivElim(n: int, d: int)
    requires d > 0 && n % d == 0
    ensures n == d * (n / d)
  {
  }

  lemma DividesSum(x: int, y: int, d: int)
    requires d > 0 && x % d == 0 && y % d == 0
    ensures (x + y) % d == 0 && (x - y) % d == 0
  {
    assert d * (x / d) + d * (y / d) == d * (x / d + y / d);
    assert d * (x / d) - d * (y / d) == d * (x / d - y / d);
    DivIntro(x + y, d, x / d + y / d);
    DivIntro(x - y, d, x / d - y / d);
  }

  lemma DividesMultiple(x: int, y: int, d: int)
    requires d > 0 && x % d == 0
    ensures (x * y) % d == 0 && (y * x) % d == 0
  {
    assert x * y == d * ((x / d) * y) by {
      MulAssoc(d, x / d, y);
    }
    DivIntro(x * y, d, (x / d) * y);
    assert y * x == x * y;
  }

  lemma MulAssoc(x: int, y: int, z: int)
    ensures (x * y) * z == x * (y * z)
  {
  }

  lemma DividesTrans(x: int, d: int, e: int)
    requires d > 0 && e > 0 && d % e == 0 && x % d == 0
    ensures x % e == 0
  {
    var k, l := d / e, x / d;
    assert x == (e * k) * l;
    MulAssoc(e, k, l);
    DivIntro(x, e, k * l);
  }

  /** A common factor may be cancelled from a divisibility statement. */
  lemma CancelFactor(g: int, m: int, y: int)
    requires g > 0 && m > 0
    ensures g * m > 0 && ((g * y) % (g * m) == 0 <==> y % m == 0)
  {
    PositiveProduct(g, m);
    if (g * y) % (g * m) == 0 {
      var k := (g * y) / (g * m);
      assert g * y == (g * m) * k;
      MulAssoc(g, m, k);
      assert g * y == g * (m * k);
      CancelLeft(g, y, m * k);
      DivIntro(y, m, k);
    }
    if y % m == 0 {
      var k := y / m;
      assert y == m * k;
      MulAssoc(g, m, k);
      DivIntro(g * y, g * m, k);
    }
  }

  lemma PositiveProduct(x: int, y: int)
    requires x > 0 && y > 0
    ensures x * y > 0 && x * y >= x && x * y >= y
  {
    MonotoneProduct(1, x, y);
    MonotoneProduct(1, y, x);
    assert y * x == x * y;
  }

  lemma MonotoneProduct(x: int, y: int, z: int)
    requires x <= y && z >= 0
    ensures x * z <= y * z && z * x <= z * y
  {
    assert (y - x) * z >= 0;
    assert (y - x) * z == y * z - x * z;
  }

  lemma CancelLeft(g: int, x: int, y: int)
    requires g != 0 && g * x == g * y
    ensures x == y
  {
    assert g * (x - y) == 0;
  }

  // ----- greatest common divisors -----

  /** Greatest common divisor of two non-negative numbers, by Euclid's algorithm. */
  function Gcd(a: nat, b: nat): (g: nat)
    ensures a > 0 || b > 0 ==> g > 0 && a % g == 0 && b % g == 0
    decreases b
  {
    if b == 0 then a
    else
      var g := Gcd(b, a % b);
      GcdStep(a, b, g);
      g
  }

  lemma GcdStep(a: nat, b: nat, g: nat)
    requires b > 0 && g > 0 && b % g == 0 && (a % b) % g == 0
    ensures a % g == 0
  {
    DividesMultiple(b, a / b, g);
    DividesSum(b * (a / b), a % b, g);
    assert a == b * (a / b) + a % b;
  }

  /** The greatest common divisor is an integer combination of its arguments. */
  lemma {:induction false} Bezout(a: nat, b: nat) returns (x: int, y: int)
    ensures Gcd(a, b) == a * x + b * y
    decreases b
  {
    if b == 0 {
      x, y := 1, 0;
    } else {
      var x', y' := Bezout(b, a % b);
      var q := a / b;
      x, y := y', x' - q * y';
      BezoutStep(b, a % b, q, x', y');
      assert a == b * q + a % b;
    }
  }

  lemma BezoutStep(b: int, r: int, q: int, x: int, y: int)
    ensures (b * q + r) * y + b * (x - q * y) == b * x + r * y
  {
  }

  /** The source's allInputValueGCD: a common divisor of any two integers. */
  function AllInputValueGCD(a: int, b: int): (g: nat)
    ensures a != 0 || b != 0 ==> g > 0 && a % g == 0 && b % g == 0
    ensures a == 0 && b == 0 ==> g == 0
  {
    if a == 0 then
      (if b != 0 then AbsDivides(b, Abs(b)); Abs(b) else 0)
    else if b == 0 then
      AbsDivides(a, Abs(a)); Abs(a)
    else
      var g := Gcd(Abs(a), Abs(b));
      AbsDivides(a, g);
      AbsDivides(b, g);
      g
  }

  lemma AbsDivides(a: int, g: int)
    requires g > 0 && Abs(a) % g == 0
    ensures a % g == 0
  {
    var k := Abs(a) / g;
    if a < 0 {
      assert a == g * -k;
      DivIntro(a, g, -k);
    }
  }

  lemma GcdBezout(a: int, b: int) returns (x: int, y: int)
    ensures AllInputValueGCD(a, b) == a * x + b * y
  {
    if a == 0 {
      x, y := 0, if b < 0 then -1 else 1;
    } else if b == 0 {
      x, y := if a < 0 then -1 else 1, 0;
    } else {
      var x', y' := Bezout(Abs(a), Abs(b));
      x, y := if a < 0 then -x' else x', if b < 0 then -y' else y';
      NegatedProduct(a, x');
      NegatedProduct(b, y');
    }
  }

  lemma NegatedProduct(a: int, x: int)
    ensures -a * x == a * -x
  {
  }

  /** Every common divisor divides the greatest one, so AllInputValueGCD is the gcd. */
  lemma GcdGreatest(a: int, b: int, d: int)
    requires d > 0 && a % d == 0 && b % d == 0
    ensures AllInputValueGCD(a, b) % d == 0
  {
    var x, y := GcdBezout(a, b);
    DividesMultiple(a, x, d);
    DividesMultiple(b, y, d);
    DividesSum(a * x, b * y, d);
  }
}
