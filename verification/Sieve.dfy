/** The discriminant search of the proof-of-work hash: the prime table, the modular inverses and the
    sieve over the progression n, n + m, n + 2m, ... */
module Sieve {
  import opened Integers
  import opened Options
  import opened Primes

  // ----- the table of odd primes -----

  /** The integer square root, which the source takes from floating point. */
  function FloorSqrt(n: nat): (r: nat)
    ensures r * r <= n < (r + 1) * (r + 1)
  {
    if n == 0 then 0
    else
      var r := FloorSqrt(n - 1);
      SquareGap(r);
      if (r + 1) * (r + 1) <= n then r + 1 else r
  }

  lemma SquareGap(r: nat)
    ensures (r + 1) * (r + 1) < (r + 2) * (r + 2)
    ensures (r + 1) * (r + 1) == r * r + 2 * r + 1
  {
  }

  /** An odd number below i, at least 3, properly divides x. */
  ghost predicate Crossed(x: int, i: int) {
    exists d :: Crosses(d, x, i)
  }

  ghost predicate Crosses(d: int, x: int, i: int) {
    3 <= d < i && d < x && d % 2 == 1 && x % d == 0
  }

  lemma CrossedNext(x: int, i: int)
    requires i >= 3 && i % 2 == 1
    ensures Crossed(x, i + 2) <==> Crossed(x, i) || (i < x && x % i == 0)
  {
    if Crossed(x, i + 2) {
      var d :| Crosses(d, x, i + 2);
      assert d == i || Crosses(d, x, i);
    }
    if Crossed(x, i) {
      var d :| Crosses(d, x, i);
      assert Crosses(d, x, i + 2);
    }
    if i < x && x % i == 0 {
      assert Crosses(i, x, i + 2);
    }
  }

  /** A multiple of a crossed number is crossed. */
  lemma CrossedMultiple(x: int, i: int)
    requires i >= 3 && Crossed(i, i) && i < x && x % i == 0
    ensures Crossed(x, i)
  {
    var d :| Crosses(d, i, i);
    DividesTrans(x, i, d);
    assert Crosses(d, x, i);
  }

  /** An odd number is prime exactly when no odd number up to its square root crosses it. */
  lemma UncrossedIsPrime(x: int, n: nat, limit: int)
    requires 3 <= x <= n && x % 2 == 1 && limit > FloorSqrt(n)
    ensures IsPrime(x) <==> !Crossed(x, limit)
  {
    if Crossed(x, limit) {
      var d :| Crosses(d, x, limit);
    }
    if !IsPrime(x) {
      var d :| 2 <= d < x && x % d == 0;
      var e := SmallFactor(x, d, FloorSqrt(n));
      assert Crosses(e, x, limit);
    }
  }

  lemma SmallFactor(x: int, d: int, r: nat) returns (e: int)
    requires x >= 3 && x % 2 == 1 && 2 <= d < x && x % d == 0 && x < (r + 1) * (r + 1)
    ensures 3 <= e <= r && e < x && e % 2 == 1 && x % e == 0
  {
    var c := x / d;
    assert x == d * c;
    CofactorBounds(d, c, x);
    OddFactor(d, c);
    OddFactor(c, d);
    assert c * d == x;
    DivIntro(x, c, d);
    if d > r && c > r {
      MonotoneProduct(r + 1, d, r + 1);
      MonotoneProduct(r + 1, c, d);
      assert false;
    }
    e := if d <= r then d else c;
  }

  lemma CofactorBounds(d: int, c: int, x: int)
    requires 2 <= d < x && x == d * c
    ensures 2 <= c < x
  {
    if c <= 1 {
      MonotoneProduct(c, 1, d);
      assert false;
    }
    MonotoneProduct(2, d, c);
  }

  lemma OddFactor(d: int, c: int)
    requires (d * c) % 2 == 1
    ensures d % 2 == 1
  {
    if d % 2 == 0 {
      DividesMultiple(d, c, 2);
      assert false;
    }
  }

  /** Crosses out every multiple of i above i. */
  method CrossMultiples(sieve: array<bool>, i: int)
    requires 3 <= i
    modifies sieve
    ensures forall x :: 0 <= x < sieve.Length ==> sieve[x] == (old(sieve[x]) || (i < x && x % i == 0))
  {
    var j := i * 2;
    DivIntro(j, i, 2);
    while j < sieve.Length
      invariant i < j && j % i == 0
      invariant forall x :: 0 <= x < sieve.Length ==> sieve[x] == (old(sieve[x]) || (i < x < j && x % i == 0))
      decreases sieve.Length - j
    {
      NextMultiple(j, i);
      sieve[j] := true;
      j := j + i;
    }
  }

  /** Between j and j + i there is no further multiple of i. */
  lemma NextMultiple(j: int, i: int)
    requires i > 0 && j % i == 0
    ensures (j + i) % i == 0
    ensures forall x :: j < x < j + i ==> x % i != 0
  {
    DivIntro(i, i, 1);
    DividesSum(j, i, i);
    forall x | j < x < j + i ensures x % i != 0 {
      if x % i == 0 {
        DividesSum(x, j, i);
        SmallMultipleOf(x - j, i);
        assert false;
      }
    }
  }

  /** One round of the sieve: either i itself is crossed and nothing is new, or its multiples are crossed now. */
  lemma RoundDone(i: int, before: seq<bool>, after: seq<bool>)
    requires 3 <= i < |before| && i % 2 == 1 && |after| == |before|
    requires forall x :: 0 <= x < |before| ==> before[x] == Crossed(x, i)
    requires if before[i] then after == before
             else forall x :: 0 <= x < |before| ==> after[x] == (before[x] || (i < x && x % i == 0))
    ensures forall x :: 0 <= x < |after| ==> after[x] == Crossed(x, i + 2)
  {
    forall x | 0 <= x < |after| ensures after[x] == Crossed(x, i + 2) {
      CrossedNext(x, i);
      if before[i] && i < x && x % i == 0 {
        CrossedMultiple(x, i);
      }
    }
  }

  lemma NothingCrossed(x: int)
    ensures !Crossed(x, 3)
  {
  }

  lemma SqrtSmaller(n: nat)
    ensures FloorSqrt(n) <= n
  {
    var r := FloorSqrt(n);
    if r > 0 {
      PositiveProduct(r, r);
    }
  }

  /** The sieve loop of primeLessThanN. */
  method CrossComposites(num: nat) returns (sieve: array<bool>, ghost limit: int)
    ensures fresh(sieve) && sieve.Length == num + 1 && limit > FloorSqrt(num)
    ensures forall x :: 0 <= x <= num ==> sieve[x] == Crossed(x, limit)
  {
    hide Crossed, FloorSqrt;
    sieve := new bool[num + 1](_ => false);
    var i := 3;
    forall x ensures !Crossed(x, 3) {
      NothingCrossed(x);
    }
    SqrtSmaller(num);
    while i <= FloorSqrt(num)
      invariant 3 <= i && i % 2 == 1
      invariant forall x :: 0 <= x < |sieve[..]| ==> sieve[..][x] == Crossed(x, i)
      decreases FloorSqrt(num) + 2 - i
    {
      ghost var before := sieve[..];
      if sieve[i] == false {
        CrossMultiples(sieve, i);
      }
      RoundDone(i, before, sieve[..]);
      i := i + 2;
    }
    limit := i;
    assert forall x :: 0 <= x <= num ==> sieve[x] == sieve[..][x];
  }

  /** The source's primeLessThanN: the odd primes up to and including num, in ascending order. */
  method PrimeLessThanN(num: nat) returns (primes: seq<int>)
    ensures forall x :: x in primes <==> 3 <= x <= num && IsPrime(x)
    ensures forall i, j :: 0 <= i < j < |primes| ==> primes[i] < primes[j]
  {
    hide IsPrime, Crossed, FloorSqrt;
    var sieve, limit := CrossComposites(num);
    primes := [];
    var i := 3;
    while i <= num
      invariant 3 <= i && i % 2 == 1
      invariant forall x :: 0 <= x <= num ==> sieve[x] == Crossed(x, limit)
      invariant forall x :: x in primes <==> 3 <= x <= num && x < i && IsPrime(x)
      invariant forall k, l :: 0 <= k < l < |primes| ==> primes[k] < primes[l]
      decreases num + 2 - i
    {
      UncrossedIsPrime(i, num, limit);
      EvenNotPrime(i + 1);
      if sieve[i] == false {
        forall k | 0 <= k < |primes| ensures primes[k] < i {
          assert primes[k] in primes;
        }
        ghost var before := primes;
        primes := primes + [i];
        assert forall x :: x in primes <==> x in before || x == i;
      }
      assert forall x :: x < i + 2 && IsPrime(x) ==> x < i || x == i;
      i := i + 2;
    }
  }

  lemma EvenNotPrime(x: int)
    requires x % 2 == 0 && x > 2
    ensures !IsPrime(x)
  {
  }

  // ----- modular exponentiation and the tables built at start-up -----

  /** The source's modExp. The bound keeps every product inside 64 bits. */
  method ModExp(base: int, exponent: int, modulus: int) returns (result: int)
    requires base >= 0 && exponent >= 0 && 0 < modulus <= 3037000499
    ensures result == Exp(base, exponent) % modulus
  {
    if modulus == 1 {
      return 0;
    }
    var b := base % modulus;
    result := 1;
    var i := 0;
    while i < exponent
      invariant 0 <= i <= exponent
      invariant result == Exp(base, i) % modulus
    {
      ProductFits(result, b, modulus);
      ModExpStep(Exp(base, i), base, modulus);
      result := (result * b) % modulus;
      i := i + 1;
    }
  }

  lemma ProductFits(x: int, y: int, m: int)
    requires 0 <= x < m <= 3037000499 && 0 <= y < m
    ensures 0 <= x * y < 0x8000_0000_0000_0000
  {
    MonotoneProduct(x, m, y);
    MonotoneProduct(y, m, m);
    MonotoneProduct(m, 3037000499, m);
    MonotoneProduct(m, 3037000499, 3037000499);
    MonotoneProduct(0, x, y);
  }

  lemma ModExpStep(e: int, b: int, m: int)
    requires m > 0
    ensures ((e % m) * (b % m)) % m == (e * b) % m
  {
    var k, l := e / m, b / m;
    SplitProduct(m, k, l, e % m, b % m);
    var n := k * b + (e % m) * l;
    EqualRemainders(e * b, (e % m) * (b % m), n, m);
  }

  lemma SplitProduct(m: int, k: int, l: int, r: int, t: int)
    ensures (m * k + r) * (m * l + t) == r * t + m * (k * (m * l + t) + r * l)
  {
    assert (m * k + r) * (m * l + t) == (m * k) * (m * l + t) + r * (m * l + t);
    assert (m * k) * (m * l + t) == m * (k * (m * l + t));
    assert r * (m * l + t) == m * (r * l) + r * t;
  }

  lemma EqualRemainders(x: int, y: int, n: int, m: int)
    requires m > 0 && x == y + m * n
    ensures x % m == y % m
  {
    assert x == m * (n + y / m) + y % m by { assert m * (n + y / m) == m * n + m * (y / m); }
    QuotientUnique(x, m, n + y / m);
  }

  /** The modulus of the progression: 8 * 3 * 5 * 7 * 11 * 13. */
  const M := 120120

  datatype Inverse = Inverse(p: int, q: int)

  /** What the start-up code promises about the residues: exactly the residues congruent to 7 modulo 8
      without a factor 3, 5, 7, 11 or 13. */
  predicate IsResidue(x: int) {
    0 < x < M && x % 8 == 7 && x % 3 != 0 && x % 5 != 0 && x % 7 != 0 && x % 11 != 0 && x % 13 != 0
  }

  ghost predicate GoodResidues(residues: seq<int>) {
    residues != [] && forall x :: x in residues <==> IsResidue(x)
  }

  /** p is among the first k entries of the table. */
  ghost predicate Listed(table: seq<Inverse>, k: int, p: int)
    requires k <= |table|
  {
    exists j :: 0 <= j < k && table[j].p == p
  }

  /** What it promises about the sieve table: every prime from 17 up to 2^16, with the inverse of M. */
  ghost predicate GoodTable(table: seq<Inverse>) {
    && (forall v :: v in table ==> IsPrime(v.p) && 13 < v.p <= 65536 && 0 <= v.q < v.p && (M * v.q - 1) % v.p == 0)
    && (forall p :: IsPrime(p) && 13 < p <= 65536 ==> Listed(table, |table|, p))
  }

  lemma SmallPrimes()
    ensures IsPrime(3) && IsPrime(5) && IsPrime(7) && IsPrime(11) && IsPrime(13)
    ensures !IsPrime(4) && !IsPrime(6) && !IsPrime(8) && !IsPrime(9) && !IsPrime(10) && !IsPrime(12)
  {
    assert 4 % 2 == 0 && 6 % 2 == 0 && 8 % 2 == 0 && 9 % 3 == 0 && 10 % 2 == 0 && 12 % 2 == 0;
    assert 3 % 2 != 0 && 5 % 2 != 0 && 5 % 3 != 0 && 5 % 4 != 0;
    assert 7 % 2 != 0 && 7 % 3 != 0 && 7 % 4 != 0 && 7 % 5 != 0 && 7 % 6 != 0;
    ElevenAndThirteen();
  }

  lemma ElevenAndThirteen()
    ensures IsPrime(11) && IsPrime(13)
  {
    forall d | 2 <= d < 11 ensures 11 % d != 0 {
      if d >= 6 { QuotientUnique(11, d, 1); }
    }
    forall d | 2 <= d < 13 ensures 13 % d != 0 {
      if d >= 7 { QuotientUnique(13, d, 1); }
    }
  }

  /** The table lists its primes in order, so the element after one listed prime is the next prime. */
  lemma NextListed(primes: seq<int>, k: int, next: int)
    requires forall i, j :: 0 <= i < j < |primes| ==> primes[i] < primes[j]
    requires 0 <= k <= |primes| && next in primes
    requires forall x :: x in primes && x < next ==> k > 0 && x <= primes[k - 1]
    requires k > 0 ==> primes[k - 1] < next
    ensures k < |primes| && primes[k] == next
  {
    var j :| 0 <= j < |primes| && primes[j] == next;
    assert j >= k;
    assert primes[k] in primes;
    assert j == k;
  }

  /** odd_primes[5:] are exactly the listed primes above 13. */
  lemma AboveThirteen(primes: seq<int>)
    requires forall i, j :: 0 <= i < j < |primes| ==> primes[i] < primes[j]
    requires forall x :: x in primes <==> 3 <= x <= 65536 && IsPrime(x)
    ensures |primes| >= 5 && primes[4] == 13
    ensures forall x :: x in primes[5..] <==> x in primes && x > 13
  {
    hide IsPrime;
    SmallPrimes();
    NextListed(primes, 0, 3);
    NextListed(primes, 1, 5);
    NextListed(primes, 2, 7);
    NextListed(primes, 3, 11);
    NextListed(primes, 4, 13);
    forall x ensures x in primes[5..] <==> x in primes && x > 13 {
      if x in primes[5..] {
        var j :| 0 <= j < |primes[5..]| && primes[5..][j] == x;
        assert primes[5 + j] == x && primes[4] < primes[5 + j];
      }
      if x in primes && x > 13 {
        var j :| 0 <= j < |primes| && primes[j] == x;
        assert j >= 5;
        assert primes[5..][j - 5] == x;
      }
    }
  }

  /** M has no prime factor above 13. */
  lemma ModulusCoprime(p: int)
    requires IsPrime(p) && p > 13
    ensures M % p != 0
  {
    if M % p == 0 {
      SmallRemainders(p);
      EuclidsLemma(p, 13, 9240);
      EuclidsLemma(p, 11, 840);
      EuclidsLemma(p, 7, 120);
      EuclidsLemma(p, 5, 24);
      EuclidsLemma(p, 3, 8);
      assert false;
    }
  }

  lemma SmallRemainders(p: int)
    requires p > 13
    ensures 13 % p != 0 && 11 % p != 0 && 7 % p != 0 && 5 % p != 0 && 3 % p != 0 && 8 % p != 0
  {
    QuotientUnique(13, p, 0);
    QuotientUnique(11, p, 0);
    QuotientUnique(7, p, 0);
    QuotientUnique(5, p, 0);
    QuotientUnique(3, p, 0);
    QuotientUnique(8, p, 0);
  }

  lemma ReducedInverse(m: int, p: int, q: int)
    requires p > 0 && ((m % p) * q - 1) % p == 0
    ensures (m * q - 1) % p == 0
  {
    var a, k := m % p, (m / p) * q;
    assert m * q == p * k + a * q by {
      assert m == p * (m / p) + a;
      assert (p * (m / p) + a) * q == p * k + a * q;
    }
    DivIntro(p * k, p, k);
    DividesSum(a * q - 1, p * k, p);
  }

  lemma TableInverse(p: int, q: int)
    requires IsPrime(p) && p > 13 && q == Exp(M % p, p - 2) % p
    ensures (M * q - 1) % p == 0
  {
    ModulusCoprime(p);
    var a := M % p;
    QuotientUnique(a, p, 0);
    InverseByFermat(p, a, q);
    ReducedInverse(M, p, q);
  }

  /** The start-up code: the residues and, for every prime from 17 up to 2^16, the inverse of M. */
  method BuildTables() returns (residues: seq<int>, table: seq<Inverse>)
    ensures GoodResidues(residues) && GoodTable(table)
  {
    var oddPrimes := PrimeLessThanN(65536);
    residues := CollectResidues();
    AboveThirteen(oddPrimes);
    var above := oddPrimes[5..];
    table := [];
    hide IsPrime, Listed;
    for i := 0 to |above|
      invariant |table| == i
      invariant forall j :: 0 <= j < i ==> table[j].p == above[j] && 0 <= table[j].q < table[j].p
      invariant forall j :: 0 <= j < i ==> (M * table[j].q - 1) % table[j].p == 0
    {
      var prime := above[i];
      assert prime in above;
      var q := ModExp(M % prime, prime - 2, prime);
      TableInverse(prime, q);
      table := table + [Inverse(prime, q)];
    }
    TableComplete(above, table);
  }

  lemma TableComplete(above: seq<int>, table: seq<Inverse>)
    requires |table| == |above| && forall j :: 0 <= j < |above| ==> table[j].p == above[j] && 0 <= table[j].q < table[j].p
    requires forall j :: 0 <= j < |above| ==> (M * table[j].q - 1) % table[j].p == 0
    requires forall x :: x in above <==> 13 < x <= 65536 && IsPrime(x)
    ensures GoodTable(table)
  {
    hide IsPrime;
    forall v | v in table
      ensures IsPrime(v.p) && 13 < v.p <= 65536 && 0 <= v.q < v.p && (M * v.q - 1) % v.p == 0
    {
      var j :| 0 <= j < |table| && table[j] == v;
      assert above[j] in above;
    }
    forall p | IsPrime(p) && 13 < p <= 65536 ensures Listed(table, |table|, p) {
      assert p in above;
      var j :| 0 <= j < |above| && above[j] == p;
      assert table[j].p == p;
    }
  }

  /** The loop over 7, 15, 23, ... that fills the residues. */
  method CollectResidues() returns (residues: seq<int>)
    ensures GoodResidues(residues)
  {
    hide IsResidue;
    residues := [];
    var x := 7;
    SomeResidues();
    while x < M
      invariant 7 <= x && x % 8 == 7
      invariant forall y :: y in residues <==> y < x && IsResidue(y)
      decreases M - x
    {
      NextResidue(x);
      ghost var before := residues;
      if x % 3 != 0 && x % 5 != 0 && x % 7 != 0 && x % 11 != 0 && x % 13 != 0 {
        residues := residues + [x];
        assert forall y :: y in residues <==> y in before || y == x;
      }
      x := x + 8;
    }
    assert 23 in residues;
  }

  lemma SomeResidues()
    ensures IsResidue(23)
    ensures forall y :: IsResidue(y) ==> 7 <= y < M
  {
  }

  lemma NextResidue(x: int)
    requires 7 <= x < M && x % 8 == 7
    ensures (x + 8) % 8 == 7
    ensures IsResidue(x) <==> x % 3 != 0 && x % 5 != 0 && x % 7 != 0 && x % 11 != 0 && x % 13 != 0
    ensures forall y :: IsResidue(y) && x < y ==> x + 8 <= y
  {
  }

  // ----- the sieve over one block of the progression -----

  const Size := 65536

  /** The first k table primes that divide n + M*x. */
  ghost predicate Marked(table: seq<Inverse>, k: int, n: int, x: int)
    requires k <= |table|
  {
    exists j :: 0 <= j < k && table[j].p > 0 && (n + M * x) % table[j].p == 0
  }

  /** The index the sieve starts from is the only residue of indexes whose number p divides. */
  lemma StartIndex(n: int, p: int, q: int, x: int)
    requires p > 0 && (M * q - 1) % p == 0
    ensures x % p == ((-n) % p * q) % p <==> (n + M * x) % p == 0
  {
    var i := ((-n) % p * q) % p;
    StartResidue(n, p, q, i);
    if x % p == i {
      SameRemainder(x, i, p);
      RemainderIdem(((-n) % p) * q, p);
      DividesSum(x - i, i + n * q, p);
      ScaleByModulus(n, p, q, x);
    }
    if (n + M * x) % p == 0 {
      UnscaleByModulus(n, p, q, x);
      DividesSum(x + n * q, i + n * q, p);
      EqualFromDifference(x, i, p);
    }
  }

  lemma RemainderIdem(y: int, p: int)
    requires p > 0
    ensures (y % p) % p == y % p
  {
    QuotientUnique(y % p, p, 0);
  }

  lemma StartResidue(n: int, p: int, q: int, i: int)
    requires p > 0 && i == ((-n) % p * q) % p
    ensures (i + n * q) % p == 0 && 0 <= i < p && i % p == i
  {
    var r := (-n) % p;
    var k := (-n) / p;
    var l := (r * q) / p;
    assert -n == p * k + r && r * q == p * l + i;
    assert (p * k + r) * q == p * (k * q) + r * q;
    assert (-n) * q == -(n * q);
    assert i + n * q == p * (-(k * q) - l) by { assert p * (-(k * q) - l) == -(p * (k * q)) - p * l; }
    DivIntro(i + n * q, p, -(k * q) - l);
    QuotientUnique(i, p, 0);
  }

  /** x = -n*q gives M*x = -n. */
  lemma ScaleByModulus(n: int, p: int, q: int, x: int)
    requires p > 0 && (M * q - 1) % p == 0 && (x + n * q) % p == 0
    ensures (n + M * x) % p == 0
  {
    DividesMultiple(x + n * q, M, p);
    DividesMultiple(M * q - 1, n, p);
    DividesSum(M * (x + n * q), n * (M * q - 1), p);
    assert n * (M * q - 1) == M * (n * q) - n;
    assert M * (x + n * q) == M * x + M * (n * q);
  }

  /** M*x = -n gives x = -n*q. */
  lemma UnscaleByModulus(n: int, p: int, q: int, x: int)
    requires p > 0 && (M * q - 1) % p == 0 && (n + M * x) % p == 0
    ensures (x + n * q) % p == 0
  {
    DividesMultiple(n + M * x, q, p);
    DividesMultiple(M * q - 1, x, p);
    DividesSum((n + M * x) * q, (M * q - 1) * x, p);
    assert (M * q - 1) * x == (M * q) * x - x;
    assert (n + M * x) * q == n * q + (M * q) * x;
  }

  lemma EqualFromDifference(x: int, i: int, p: int)
    requires p > 0 && 0 <= i < p && ((x - i) % p == 0)
    ensures x % p == i
  {
    var k := (x - i) / p;
    assert x == p * k + i;
    QuotientUnique(x, p, k);
  }

  /** Marks start, start + p, start + 2p, ... */
  method MarkProgression(sieve: array<bool>, start: int, p: int)
    requires 0 <= start < p
    modifies sieve
    ensures forall x :: 0 <= x < sieve.Length ==> sieve[x] == (old(sieve[x]) || x % p == start)
  {
    var i := start;
    QuotientUnique(start, p, 0);
    while i < sieve.Length
      invariant start <= i && i % p == start
      invariant forall x :: 0 <= x < sieve.Length ==> sieve[x] == (old(sieve[x]) || (x < i && x % p == start))
      decreases sieve.Length - i
    {
      NextInProgression(i, start, p);
      sieve[i] := true;
      i := i + p;
    }
  }

  lemma NextInProgression(i: int, start: int, p: int)
    requires 0 <= start < p && i % p == start
    ensures (i + p) % p == start
    ensures forall x :: i < x < i + p ==> x % p != start
  {
    var k := i / p;
    assert i + p == p * (k + 1) + start;
    QuotientUnique(i + p, p, k + 1);
    forall x | i < x < i + p ensures x % p != start {
      if x % p == start {
        SameRemainder(x, i, p);
        SmallMultipleOf(x - i, p);
        assert false;
      }
    }
  }

  /** What the sieve promises about its table, in the form one pass needs it. */
  predicate Invertible(v: Inverse) {
    v.p > 0 && 0 <= v.q < v.p <= 65536 && (M * v.q - 1) % v.p == 0
  }

  /** One sieve pass: index x is marked exactly when some table prime divides n + M*x. */
  method SievePass(n: int, table: seq<Inverse>) returns (sieve: array<bool>)
    requires forall j :: 0 <= j < |table| ==> Invertible(table[j])
    ensures fresh(sieve) && sieve.Length == Size
    ensures forall x :: 0 <= x < Size ==> sieve[x] == Marked(table, |table|, n, x)
  {
    hide Marked;
    sieve := new bool[Size](_ => false);
    forall x ensures !Marked(table, 0, n, x) {
      MarkedNone(table, n, x);
    }
    for k := 0 to |table|
      invariant forall x :: 0 <= x < Size ==> sieve[x] == Marked(table, k, n, x)
    {
      var v := table[k];
      var i := ((-n) % v.p * v.q) % v.p;
      forall x: int ensures Marked(table, k + 1, n, x) <==> Marked(table, k, n, x) || x % v.p == i {
        MarkedNext(table, k, n, x);
        StartIndex(n, v.p, v.q, x);
      }
      MarkProgression(sieve, i, v.p);
    }
  }

  lemma MarkedNone(table: seq<Inverse>, n: int, x: int)
    ensures !Marked(table, 0, n, x)
  {
  }

  lemma MarkedNext(table: seq<Inverse>, k: nat, n: int, x: int)
    requires k < |table| && table[k].p > 0
    ensures Marked(table, k + 1, n, x) <==> Marked(table, k, n, x) || (n + M * x) % table[k].p == 0
  {
  }

  // ----- the search for the discriminant -----

  /** c has no prime factor from 17 up to 2^16. */
  ghost predicate NoTableFactor(c: int) {
    forall p :: IsPrime(p) && 13 < p <= 65536 ==> c % p != 0
  }

  lemma MarkedMeansFactor(table: seq<Inverse>, n: int, x: int)
    requires GoodTable(table)
    ensures forall j :: 0 <= j < |table| ==> Invertible(table[j])
    ensures Marked(table, |table|, n, x) <==> !NoTableFactor(n + M * x)
  {
    hide IsPrime;
    assert forall j :: 0 <= j < |table| ==> table[j] in table;
    forall j | 0 <= j < |table| ensures Invertible(table[j]) {
      PrimeAtLeastTwo(table[j].p);
    }
    if Marked(table, |table|, n, x) {
      var j :| 0 <= j < |table| && table[j].p > 0 && (n + M * x) % table[j].p == 0;
      assert table[j] in table;
    }
    if !NoTableFactor(n + M * x) {
      var p :| IsPrime(p) && 13 < p <= 65536 && (n + M * x) % p == 0;
      assert Listed(table, |table|, p);
    }
  }

  lemma PrimeAtLeastTwo(p: int)
    ensures IsPrime(p) ==> p >= 2
  {
  }

  /** The candidates the search accepts: sieved and probably prime. */
  ghost predicate Accepted(probablyPrime: int -> bool, c: int) {
    NoTableFactor(c) && probablyPrime(c)
  }

  /** The first number of the progression n, n + M, ... to be accepted is at index k. */
  ghost predicate FirstAccepted(probablyPrime: int -> bool, n: int, k: nat) {
    Accepted(probablyPrime, n + M * k) && NoneAccepted(probablyPrime, n, k)
  }

  ghost predicate NoneAccepted(probablyPrime: int -> bool, n: int, k: nat) {
    forall j: nat :: j < k ==> !Accepted(probablyPrime, n + M * j)
  }

  /** One block of the search: the first accepted candidate among n, ..., n + M*(2^16 - 1). */
  method SearchBlock(n: int, table: seq<Inverse>, probablyPrime: int -> bool) returns (res: Option<nat>)
    requires GoodTable(table)
    ensures res.Some? ==> res.value < Size && FirstAccepted(probablyPrime, n, res.value)
    ensures res.None? ==> NoneAccepted(probablyPrime, n, Size)
  {
    hide GoodTable, NoTableFactor, Marked;
    MarkedMeansFactor(table, n, 0);
    var sieve := SievePass(n, table);
    for i := 0 to Size
      invariant forall x :: 0 <= x < Size ==> sieve[x] == Marked(table, |table|, n, x)
      invariant NoneAccepted(probablyPrime, n, i)
    {
      var t := n + M * i;
      MarkedMeansFactor(table, n, i);
      if !sieve[i] && probablyPrime(t) {
        return Some(i);
      }
    }
    return None;
  }

  lemma NextBlock(probablyPrime: int -> bool, n: int, start: nat, k: nat)
    requires NoneAccepted(probablyPrime, n, start)
    ensures FirstAccepted(probablyPrime, n + M * start, k) ==> FirstAccepted(probablyPrime, n, start + k)
    ensures NoneAccepted(probablyPrime, n + M * start, k) ==> NoneAccepted(probablyPrime, n, start + k)
  {
    hide Accepted;
    ShiftIndex(n, start, k);
    if NoneAccepted(probablyPrime, n + M * start, k) {
      forall j: nat | j < start + k ensures !Accepted(probablyPrime, n + M * j) {
        if j >= start {
          ShiftIndex(n, start, j - start);
          assert !Accepted(probablyPrime, n + M * start + M * (j - start));
        }
      }
    }
  }

  lemma ShiftIndex(n: int, start: int, k: int)
    ensures n + M * start + M * k == n + M * (start + k)
  {
  }

  // ----- the starting point -----

  type Byte = x: nat | x < 256

  function Pow2(n: nat): (r: nat)
    ensures r > 0
  {
    if n == 0 then 1 else 2 * Pow2(n - 1)
  }

  /** big.Int.SetBytes: a big-endian byte string as a number. */
  function SetBytes(bytes: seq<Byte>): nat {
    if bytes == [] then 0 else 256 * SetBytes(bytes[..|bytes| - 1]) + bytes[|bytes| - 1]
  }

  /** big.Int.Rsh. */
  function Rsh(n: nat, s: nat): nat {
    EuclideanBounds(n, Pow2(s));
    n / Pow2(s)
  }

  function SetBit(n: nat, i: nat): nat {
    if n / Pow2(i) % 2 == 1 then n else n + Pow2(i)
  }

  function ByteCount(length: nat): nat {
    (length + 7) / 8 + 2
  }

  /** The entropy bytes as a number of exactly the given length in bits. */
  function EntropyNumber(entropy: seq<Byte>, length: nat): nat
    requires length > 0 && |entropy| >= 2
  {
    var extra := length % 8;
    SetBit(Rsh(SetBytes(entropy[..|entropy| - 2]), (8 - extra) % 8), length - 1)
  }

  // ----- the bits of the starting point -----

  function Bit(n: nat, i: nat): nat {
    Rsh(n, i) % 2
  }

  lemma {:induction false} Pow2Sum(i: nat, j: nat)
    ensures Pow2(i + j) == Pow2(i) * Pow2(j)
    decreases j
  {
    if j > 0 {
      Pow2Sum(i, j - 1);
      assert Pow2(i) * (2 * Pow2(j - 1)) == 2 * (Pow2(i) * Pow2(j - 1));
    }
  }

  /** Dividing twice is dividing by the product. */
  lemma QuotientTwice(n: nat, d: nat, e: nat, q: nat, p: nat)
    requires d > 0 && e > 0 && d * e > 0 && d * q <= n < d * q + d && e * p <= q < e * p + e
    ensures n / (d * e) == p
  {
    MonotoneProduct(e * p, q, d);
    MonotoneProduct(q + 1, e * p + e, d);
    MulAssoc(d, e, p);
    assert d * (e * p + e) == d * (e * p) + d * e && d * (q + 1) == d * q + d;
    QuotientUnique(n, d * e, p);
  }

  lemma ShiftedBit(n: nat, s: nat, i: nat)
    ensures Bit(Rsh(n, s), i) == Bit(n, s + i)
  {
    Pow2Sum(s, i);
    var q := Rsh(n, s);
    EuclideanBounds(n, Pow2(s));
    EuclideanBounds(q, Pow2(i));
    hide Pow2;
    QuotientTwice(n, Pow2(s), Pow2(i), q, q / Pow2(i));
  }

  lemma ByteBit(h: nat, b: Byte, i: nat)
    requires i < 8
    ensures Bit(256 * h + b, i) == Bit(b, i)
  {
    var k: nat := Pow2(7 - i);
    Pow2Sum(i, 7 - i);
    EightBits();
    hide Pow2;
    MulAssoc(Pow2(i), k, 2 * h);
    assert k * (2 * h) == 2 * (k * h);
    AddMultiple(b, Pow2(i), 2 * (k * h));
    EvenAdded(b / Pow2(i), k * h);
  }

  lemma EightBits()
    ensures Pow2(7) == 128 && Pow2(8) == 256
  {
    assert Pow2(7) == 2 * Pow2(6) == 4 * Pow2(5) == 8 * Pow2(4) == 16 * Pow2(3) == 32 * Pow2(2) == 64 * Pow2(1);
  }

  lemma AddMultiple(b: nat, d: nat, k: nat)
    requires d > 0
    ensures (d * k + b) / d == k + b / d
  {
    var q := b / d;
    assert d * q <= b < d * q + d && d * (k + q) == d * k + d * q;
    QuotientUnique(d * k + b, d, k + q);
  }

  /** Bit i of a byte string stands in the byte i / 8 from the end, at offset i % 8. */
  lemma {:induction false} BytesBit(bytes: seq<Byte>, i: nat)
    requires i < 8 * |bytes|
    ensures Bit(SetBytes(bytes), i) == Bit(bytes[|bytes| - 1 - i / 8], i % 8)
    decreases |bytes|
  {
    var n := |bytes| - 1;
    var h, b := SetBytes(bytes[..n]), bytes[n];
    hide Bit;
    if i < 8 {
      ByteBit(h, b, i);
    } else {
      EightBits();
      hide Pow2;
      ShiftedBit(256 * h + b, 8, i - 8);
      AddMultiple(b, 256, h);
      BytesBit(bytes[..n], i - 8);
      assert Rsh(256 * h + b, 8) == h;
    }
  }

  lemma {:induction false} BytesBound(bytes: seq<Byte>)
    ensures SetBytes(bytes) < Pow2(8 * |bytes|)
    decreases |bytes|
  {
    if bytes != [] {
      var n := |bytes| - 1;
      BytesBound(bytes[..n]);
      EightBits();
      Pow2Sum(8 * n, 8);
    }
  }

  lemma QuotientBelow(n: nat, d: nat, e: nat)
    requires d > 0 && n < d * e
    ensures n / d < e
  {
    var q := n / d;
    if q >= e {
      MonotoneProduct(e, q, d);
      assert false;
    }
  }

  lemma Pow2Next(k: nat)
    ensures Pow2(k + 1) == 2 * Pow2(k)
  {
  }

  lemma TopBitRange(n: nat, k: nat)
    requires n < Pow2(k + 1)
    ensures Pow2(k) <= SetBit(n, k) < Pow2(k + 1)
  {
    Pow2Next(k);
    hide Pow2;
    var d := Pow2(k);
    QuotientBelow(n, d, 2);
    assert n / d == 0 || n / d == 1;
    assert d * (n / d) <= n < d * (n / d) + d;
  }

  lemma EvenAdded(x: int, t: int)
    ensures (2 * t + x) % 2 == x % 2
  {
  }

  /** Setting bit k leaves the bits below. */
  lemma LowerBitKept(n: nat, k: nat, i: nat)
    requires i < k
    ensures Bit(SetBit(n, k), i) == Bit(n, i)
  {
    var t: nat := Pow2(k - 1 - i);
    Pow2Sum(i, k - i);
    Pow2Next(k - 1 - i);
    hide Pow2;
    AddMultiple(n, Pow2(i), 2 * t);
    EvenAdded(n / Pow2(i), t);
  }

  lemma FromFront(n: nat, j: nat)
    requires j < 8 * n
    ensures var p := 8 * n - 1 - j; p / 8 == n - 1 - j / 8 && 7 - p % 8 == j % 8
  {
  }

  /** The bits of a string from a byte boundary on, counted from the first byte. */
  lemma LeadingBit(bytes: seq<Byte>, shift: nat, i: nat)
    requires i + shift < 8 * |bytes|
    ensures var p := 8 * |bytes| - 1 - shift - i;
            Bit(Rsh(SetBytes(bytes), shift), i) == Bit(bytes[p / 8], 7 - p % 8)
  {
    hide Bit, Pow2, SetBytes, Rsh;
    ShiftedBit(SetBytes(bytes), shift, i);
    BytesBit(bytes, shift + i);
    FromFront(|bytes|, shift + i);
  }

  /** The bytes, less the bits beyond the length. */
  lemma LeadingBound(bytes: seq<Byte>, shift: nat)
    requires shift <= 8 * |bytes|
    ensures Rsh(SetBytes(bytes), shift) < Pow2(8 * |bytes| - shift)
  {
    BytesBound(bytes);
    Pow2Sum(shift, 8 * |bytes| - shift);
    hide Pow2, SetBytes;
    QuotientBelow(SetBytes(bytes), Pow2(shift), Pow2(8 * |bytes| - shift));
  }

  lemma Surplus(length: nat)
    requires length > 0
    ensures var shift := (8 - length % 8) % 8; shift <= 8 * (ByteCount(length) - 2) == length + shift
  {
  }

  /** The number newDiscriminant starts its search from: the entropy, moved to a residue that the last two
      bytes select. */
  function StartingPoint(entropy: seq<Byte>, length: nat, residues: seq<int>): int
    requires length > 0 && |entropy| >= 2 && residues != []
  {
    var n := EntropyNumber(entropy, length);
    var low: int := 256 * (entropy[|entropy| - 2] as int) + (entropy[|entropy| - 1] as int);
    n - n % M + residues[low % |residues|]
  }

  /** The entropy gives a number of exactly the length asked for: its top bit is set, and every other bit is that of
      the entropy, read from the first byte on. */
  lemma EntropyBits(entropy: seq<Byte>, length: nat, i: nat)
    requires length > 0 && |entropy| == ByteCount(length)
    ensures Pow2(length - 1) <= EntropyNumber(entropy, length) < Pow2(length)
    ensures i < length - 1 ==>
              Bit(EntropyNumber(entropy, length), i) ==
                Bit(entropy[(length - 1 - i) / 8], 7 - (length - 1 - i) % 8)
  {
    hide SetBytes, Pow2, Bit, SetBit, Rsh;
    Surplus(length);
    hide ByteCount;
    var bytes, shift := entropy[..|entropy| - 2], (8 - length % 8) % 8;
    LeadingBound(bytes, shift);
    TopBitRange(Rsh(SetBytes(bytes), shift), length - 1);
    if i < length - 1 {
      LowerBitKept(Rsh(SetBytes(bytes), shift), length - 1, i);
      LeadingBit(bytes, shift, i);
    }
  }

  lemma StartingResidue(entropy: seq<Byte>, length: nat, residues: seq<int>)
    requires length > 0 && |entropy| >= 2 && GoodResidues(residues)
    ensures var n, k := StartingPoint(entropy, length, residues), |entropy| - 2;
            && n > 0 && IsResidue(n % M) && n / M == EntropyNumber(entropy, length) / M
            && n % M == residues[(256 * entropy[k] + entropy[k + 1]) % |residues|]
  {
    var low: int := 256 * (entropy[|entropy| - 2] as int) + (entropy[|entropy| - 1] as int);
    assert residues[low % |residues|] in residues;
    hide EntropyNumber;
    MoveToResidue(EntropyNumber(entropy, length), residues[low % |residues|]);
  }

  lemma MoveToResidue(n: nat, r: int)
    requires 0 <= r < M
    ensures n - n % M + r >= r && (n - n % M + r) % M == r && (n - n % M + r) / M == n / M
  {
    assert n - n % M == M * (n / M);
    QuotientUnique(M * (n / M) + r, M, n / M);
  }

  /** The source's newDiscriminant, searching at most the given number of blocks of 2^16 candidates. The
      answer is minus the first number of the progression that no table prime divides and that
      ProbablyPrime accepts. */
  method NewDiscriminant(entropy: seq<Byte>, length: nat, residues: seq<int>, table: seq<Inverse>,
                         probablyPrime: int -> bool, blocks: nat) returns (res: Option<int>)
    requires length > 0 && |entropy| == ByteCount(length) && GoodResidues(residues) && GoodTable(table)
    ensures var n := StartingPoint(entropy, length, residues);
            && n / M == EntropyNumber(entropy, length) / M
            && Pow2(length - 1) <= EntropyNumber(entropy, length) < Pow2(length)
            && n % M == residues[(256 * entropy[|entropy| - 2] + entropy[|entropy| - 1]) % |residues|]
            && (res.Some? ==> exists k: nat :: FirstAccepted(probablyPrime, n, k) && res.value == -(n + M * k))
            && (res.Some? ==> GoodDiscriminant(res.value))
            && (res.None? ==> NoneAccepted(probablyPrime, n, Size * blocks))
  {
    hide GoodTable, NoTableFactor, Accepted, FirstAccepted, NoneAccepted, StartingPoint, GoodDiscriminant;
    hide EntropyNumber, Pow2;
    StartingResidue(entropy, length, residues);
    EntropyBits(entropy, length, 0);
    var start := StartingPoint(entropy, length, residues);
    var n := start;
    NoneBeforeFirst(probablyPrime, start);
    for block := 0 to blocks
      invariant n == start + M * (Size * block)
      invariant NoneAccepted(probablyPrime, start, Size * block)
    {
      var found := SearchBlock(n, table, probablyPrime);
      if found.Some? {
        NextBlock(probablyPrime, start, Size * block, found.value);
        ShiftIndex(start, Size * block, found.value);
        ghost var k: nat := Size * block + found.value;
        AcceptedProperties(probablyPrime, start, k, -(n + M * found.value));
        return Some(-(n + M * found.value));
      }
      NextBlock(probablyPrime, start, Size * block, Size);
      ShiftIndex(start, Size * block, Size);
      assert Size * block + Size == Size * (block + 1);
      n := n + M * Size;
    }
    return None;
  }

  lemma NoneBeforeFirst(probablyPrime: int -> bool, n: int)
    ensures NoneAccepted(probablyPrime, n, 0)
  {
  }

  /** What the hash needs of its discriminant: negative, congruent to 1 modulo 8, and with no prime factor
      up to 2^16. */
  ghost predicate GoodDiscriminant(d: int) {
    d < 0 && d % 8 == 1 && forall p :: IsPrime(p) && p <= 65536 ==> (-d) % p != 0
  }

  lemma AcceptedProperties(probablyPrime: int -> bool, n: int, k: nat, d: int)
    requires n > 0 && IsResidue(n % M) && d == -(n + M * k) && FirstAccepted(probablyPrime, n, k)
    ensures GoodDiscriminant(d)
  {
    DiscriminantProperties(n, k, d);
  }

  lemma DiscriminantProperties(n: int, k: nat, d: int)
    requires n > 0 && IsResidue(n % M) && d == -(n + M * k) && NoTableFactor(-d)
    ensures GoodDiscriminant(d)
  {
    var c := n + M * k;
    assert c == M * (n / M + k) + n % M;
    QuotientUnique(c, M, n / M + k);
    ResidueFactors(c);
    forall p | IsPrime(p) && p <= 65536 ensures c % p != 0 {
      if p <= 13 {
        SmallPrimeList(p);
      }
    }
  }

  lemma ResidueFactors(c: int)
    requires IsResidue(c % M)
    ensures (-c) % 8 == 1 && c % 2 != 0 && c % 3 != 0 && c % 5 != 0 && c % 7 != 0 && c % 11 != 0 && c % 13 != 0
  {
    assert c % 8 == 7 by { ReduceTwice(c, 8); }
    assert c % 3 != 0 by { ReduceTwice(c, 3); }
    assert c % 5 != 0 by { ReduceTwice(c, 5); }
    assert c % 7 != 0 by { ReduceTwice(c, 7); }
    assert c % 11 != 0 by { ReduceTwice(c, 11); }
    assert c % 13 != 0 by { ReduceTwice(c, 13); }
    SevenModEight(c);
  }

  lemma SevenModEight(c: int)
    requires c % 8 == 7
    ensures (-c) % 8 == 1 && c % 2 != 0
  {
    var k := c / 8;
    EqualRemainders(-c, 1, -k - 1, 8);
    EqualRemainders(c, 1, 4 * k + 3, 2);
  }

  /** Reducing modulo M first does not change the remainder modulo a factor of M. */
  lemma ReduceTwice(c: int, f: int)
    requires f > 0 && M % f == 0
    ensures c % f == (c % M) % f
  {
    var q := c / M;
    EqualRemainders(c, c % M, (M / f) * q, f);
  }

  lemma SmallPrimeList(p: int)
    requires IsPrime(p) && p <= 13
    ensures p == 2 || p == 3 || p == 5 || p == 7 || p == 11 || p == 13
  {
    assert 4 % 2 == 0 && 6 % 2 == 0 && 8 % 2 == 0 && 9 % 3 == 0 && 10 % 2 == 0 && 12 % 2 == 0;
  }
}
