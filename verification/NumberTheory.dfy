/** Why decryption inverts encryption for every two-prime key: Euclid, Fermat and Proth. */
module NumberTheory {
  import opened Bytes

  // ----- divisibility -----

  predicate Divides(d: nat, x: int)
    requires d > 0
  {
    x % d == 0
  }

  lemma MultipleBounds(d: int, n: int)
    requires n > 0
    ensures d >= 1 ==> d * n >= n
    ensures d <= -1 ==> d * n <= -n
  {
    assert d * n == (d - 1) * n + n == (d + 1) * n - n;
  }

  lemma ModUnique(x: int, q: int, r: nat, n: nat)
    requires r < n && x == q * n + r
    ensures x % n == r
  {
    var d := x / n - q;
    assert d * n == r - x % n;
    MultipleBounds(d, n);
  }

  lemma DividesMultiple(d: nat, k: int)
    requires d > 0
    ensures Divides(d, d * k)
  {
    ModUnique(d * k, k, 0, d);
  }

  lemma Quotient(d: nat, x: int) returns (k: int)
    requires d > 0 && Divides(d, x)
    ensures x == d * k
  {
    k := x / d;
  }

  lemma DividesLinear(d: nat, x: int, y: int, a: int, b: int)
    requires d > 0 && Divides(d, x) && Divides(d, y)
    ensures Divides(d, a * x + b * y)
  {
    var k := Quotient(d, x);
    var l := Quotient(d, y);
    assert a * x + b * y == d * (a * k + b * l);
    DividesMultiple(d, a * k + b * l);
  }

  predicate Prime(p: nat) {
    p >= 2 && forall d: nat :: 2 <= d < p ==> !Divides(d, p)
  }

  lemma DividesShift(p: nat, a: int)
    requires p > 0
    ensures Divides(p, a - p) <==> Divides(p, a)
  {
    DividesMultiple(p, 1);
    if Divides(p, a - p) {
      DividesLinear(p, a - p, p * 1, 1, 1);
    }
    if Divides(p, a) {
      DividesLinear(p, a, p * 1, 1, -1);
    }
  }

  /** p divides the product with what a leaves of p, once it divides a * b. */
  lemma RemainderProduct(p: nat, a: nat, b: nat)
    requires p > 0 && a > 0 && Divides(p, a * b)
    ensures Divides(p, (p % a) * b)
  {
    hide Divides;
    DividesMultiple(p, b);
    DividesLinear(p, p * b, a * b, 1, -(p / a));
    Expand(p / a, a, p % a, b);
    assert p / a * a + p % a == p;
    Opposite(p / a, a * b);
  }

  lemma Opposite(q: int, x: int)
    ensures -q * x == -(q * x)
  {
  }

  lemma Expand(q: int, a: int, r: int, b: int)
    ensures (q * a + r) * b == q * (a * b) + r * b
  {
  }

  lemma Difference(a: int, b: int, p: int)
    ensures (a - p) * b == 1 * (a * b) + -1 * (p * b)
  {
  }

  /** Euclid's lemma, by the remainders of p modulo a. */
  lemma {:induction false} Euclid(p: nat, a: nat, b: nat)
    requires Prime(p) && Divides(p, a * b)
    ensures Divides(p, a) || Divides(p, b)
    decreases a
  {
    assert p >= 2 && (2 <= a < p ==> !Divides(a, p));
    assert a > 0 ==> p % a < a && (p % a > 0 || Divides(a, p));
    assert 0 < a < p ==> !Divides(p, p % a) || p % a == 0;
    assert Divides(p, 0) && (a == 1 ==> a * b == b);
    hide Divides, Prime;
    if a >= p {
      DividesMultiple(p, b);
      Difference(a, b, p);
      DividesLinear(p, a * b, p * b, 1, -1);
      Euclid(p, a - p, b);
      DividesShift(p, a);
    } else if a >= 2 {
      RemainderProduct(p, a, b);
      Euclid(p, p % a, b);
    }
  }

  // ----- congruence -----

  predicate Congruent(x: int, y: int, n: nat)
    requires n > 0
  {
    Divides(n, x - y)
  }

  lemma CongruentTimes(x: int, y: int, z: int, n: nat)
    requires n > 0 && Congruent(x, y, n)
    ensures Congruent(x * z, y * z, n)
  {
    DividesLinear(n, x - y, 0, z, 0);
    assert z * (x - y) + 0 * 0 == x * z - y * z;
  }

  lemma CongruentChain(x: int, y: int, z: int, n: nat)
    requires n > 0 && Congruent(x, y, n) && Congruent(y, z, n)
    ensures Congruent(x, z, n)
  {
    DividesLinear(n, x - y, y - z, 1, 1);
  }

  lemma CongruentRemainder(x: nat, y: nat, n: nat)
    requires n > 0 && Congruent(x, y, n) && y < n
    ensures x % n == y
  {
    var k := Quotient(n, x - y);
    ModUnique(x, k, y, n);
  }

  // ----- binomial coefficients -----

  function Choose(n: nat, k: nat): nat {
    if k == 0 then 1 else if n == 0 then 0 else Choose(n - 1, k) + Choose(n - 1, k - 1)
  }

  lemma {:induction false} ChooseBeyond(n: nat, k: nat)
    requires k > n
    ensures Choose(n, k) == 0
  {
    if n > 0 {
      ChooseBeyond(n - 1, k);
      ChooseBeyond(n - 1, k - 1);
    }
  }

  lemma {:induction false} ChooseAll(n: nat)
    ensures Choose(n, n) == 1
  {
    if n > 0 {
      ChooseAll(n - 1);
      ChooseBeyond(n - 1, n);
    }
  }

  lemma {:induction false} Absorption(n: nat, k: nat)
    requires n >= 1 && k >= 1
    ensures k * Choose(n, k) == n * Choose(n - 1, k - 1)
  {
    if n == 1 {
      if k >= 2 {
        ChooseBeyond(1, k);
        ChooseBeyond(0, k - 1);
      }
    } else {
      Absorption(n - 1, k);
      var x, y, z := Choose(n - 1, k), Choose(n - 1, k - 1), Choose(n - 2, k - 1);
      if k >= 2 {
        Absorption(n - 1, k - 1);
        var w := Choose(n - 2, k - 2);
        assert y == z + w;
        Distribute(k, x, y);
        Distribute(n - 1, z, w);
        assert k * (x + y) == k * x + (k - 1) * y + y;
        assert n * y == (n - 1) * y + y;
      }
    }
  }

  lemma Distribute(k: int, x: int, y: int)
    ensures k * (x + y) == k * x + k * y
    ensures k * y == (k - 1) * y + y
  {
  }

  /** The first j + 1 terms of the expansion of (1 + a)^n. */
  function Expansion(n: nat, a: nat, j: nat): nat {
    Choose(n, j) * Pow(a, j) + if j == 0 then 0 else Expansion(n, a, j - 1)
  }

  lemma {:induction false} ExpansionStep(n: nat, a: nat, j: nat)
    requires j >= 1
    ensures Expansion(n + 1, a, j) == Expansion(n, a, j) + a * Expansion(n, a, j - 1)
  {
    var x, y, p := Choose(n, j), Choose(n, j - 1), Pow(a, j - 1);
    assert Choose(n + 1, j) == x + y && Pow(a, j) == a * p;
    assert (x + y) * (a * p) == x * (a * p) + a * (y * p);
    if j > 1 {
      ExpansionStep(n, a, j - 1);
      Distribute(a, y * p, Expansion(n, a, j - 2));
    } else {
      assert Choose(n + 1, 0) == Choose(n, 0) == 1;
    }
  }

  lemma ExpansionEnds(n: nat, a: nat)
    ensures Expansion(n, a, n + 1) == Expansion(n, a, n)
  {
    ChooseBeyond(n, n + 1);
  }

  lemma {:induction false} Binomial(n: nat, a: nat)
    ensures Pow(1 + a, n) == Expansion(n, a, n)
  {
    if n == 0 {
      assert Expansion(0, a, 0) == 1 * Pow(a, 0) == 1;
    } else {
      assert Pow(1 + a, n) == (1 + a) * Pow(1 + a, n - 1);
      hide Expansion, Pow, Choose;
      Binomial(n - 1, a);
      ExpansionStep(n - 1, a, n);
      ExpansionEnds(n - 1, a);
      OnePlus(a, Pow(1 + a, n - 1));
    }
  }

  lemma OnePlus(a: nat, x: nat)
    ensures (1 + a) * x == x + a * x
  {
  }

  // ----- Fermat's little theorem -----

  lemma ChoosePrime(p: nat, k: nat)
    requires Prime(p) && 1 <= k < p
    ensures Divides(p, Choose(p, k))
  {
    assert p > 0 && !Divides(p, k);
    hide Choose, Divides, Prime;
    Absorption(p, k);
    DividesMultiple(p, Choose(p - 1, k - 1));
    Euclid(p, k, Choose(p, k));
  }

  lemma {:induction false} ExpansionPrime(p: nat, a: nat, j: nat)
    requires Prime(p) && j < p
    ensures Congruent(Expansion(p, a, j), 1, p)
  {
    if j == 0 {
      assert Expansion(p, a, 0) == 1;
    } else {
      ExpansionPrime(p, a, j - 1);
      ChoosePrime(p, j);
      DividesLinear(p, Choose(p, j), Expansion(p, a, j - 1) - 1, Pow(a, j), 1);
      assert Pow(a, j) * Choose(p, j) + 1 * (Expansion(p, a, j - 1) - 1) == Expansion(p, a, j) - 1;
    }
  }

  lemma {:induction false} Fermat(p: nat, a: nat)
    requires Prime(p)
    ensures Congruent(Pow(a, p), a, p)
  {
    if a == 0 {
      assert Pow(0, p) == 0 * Pow(0, p - 1) == 0;
    } else {
      assert p >= 2;
      Binomial(p, a - 1);
      ChooseAll(p);
      assert Pow(a, p) == Pow(a - 1, p) + Expansion(p, a - 1, p - 1);
      hide Pow, Expansion, Choose, Prime, Divides;
      Fermat(p, a - 1);
      ExpansionPrime(p, a - 1, p - 1);
      DividesLinear(p, Pow(a - 1, p) - (a - 1), Expansion(p, a - 1, p - 1) - 1, 1, 1);
    }
  }

  // ----- exponents -----

  lemma {:induction false} PowAdd(x: nat, a: nat, b: nat)
    ensures Pow(x, a + b) == Pow(x, a) * Pow(x, b)
  {
    if a > 0 {
      PowAdd(x, a - 1, b);
      Expand(x, Pow(x, a - 1), 0, Pow(x, b));
    }
  }

  lemma {:induction false} PowTimes(x: nat, a: nat, b: nat)
    ensures Pow(x, a * b) == Pow(Pow(x, a), b)
  {
    if b > 0 {
      PowTimes(x, a, b - 1);
      PowAdd(x, a, a * (b - 1));
      assert a + a * (b - 1) == a * b;
    } else {
      assert a * 0 == 0;
    }
  }

  lemma {:induction false} CongruentPow(x: nat, y: nat, e: nat, n: nat)
    requires n > 0 && Congruent(x, y, n)
    ensures Congruent(Pow(x, e), Pow(y, e), n)
  {
    if e == 0 {
      assert Divides(n, 0);
    } else {
      CongruentPow(x, y, e - 1, n);
      var u, v := Pow(x, e - 1), Pow(y, e - 1);
      hide Congruent;
      CongruentTimes(x, y, u, n);
      CongruentTimes(u, v, y, n);
      assert u * y == y * u && v * y == y * v;
      CongruentChain(x * u, y * u, y * v, n);
    }
  }

  /** Fermat's theorem for every exponent that is 1 modulo p - 1. */
  lemma {:induction false} FermatPower(p: nat, m: nat, t: nat)
    requires Prime(p)
    ensures Congruent(Pow(m, 1 + (p - 1) * t), m, p)
  {
    assert p >= 2;
    hide Congruent, Pow, Prime;
    if t == 0 {
      Product(p - 1, 0);
      PowOne(m);
      CongruentSelf(m, p);
    } else {
      Product(p - 1, t);
      var rest := (p - 1) * (t - 1);
      PowAdd(m, p, rest);
      PowAdd(m, 1, rest);
      PowOne(m);
      Fermat(p, m);
      CongruentTimes(Pow(m, p), m, Pow(m, rest), p);
      FermatPower(p, m, t - 1);
      CongruentChain(Pow(m, p + rest), Pow(m, 1 + rest), m, p);
    }
  }

  lemma Product(a: nat, t: nat)
    ensures t == 0 ==> a * t == 0
    ensures t > 0 ==> a * (t - 1) >= 0 && a * t == a + a * (t - 1)
  {
  }

  lemma PowOne(m: nat)
    ensures Pow(m, 1) == m
  {
    assert Pow(m, 0) == 1;
  }

  lemma CongruentSelf(x: int, n: nat)
    requires n > 0
    ensures Congruent(x, x, n)
  {
  }

  lemma EuclidSigned(p: nat, a: nat, b: int)
    requires Prime(p) && Divides(p, a * b)
    ensures Divides(p, a) || Divides(p, b)
  {
    assert p > 0;
    hide Prime, Divides;
    if b >= 0 {
      Euclid(p, a, b);
    } else {
      DividesLinear(p, a * b, a * b, -1, 0);
      assert -1 * (a * b) + 0 * (a * b) == a * -b;
      Euclid(p, a, -b);
      if Divides(p, -b) {
        DividesLinear(p, -b, -b, -1, 0);
      }
    }
  }

  lemma PrimesApart(p: nat, q: nat)
    requires Prime(p) && Prime(q) && p != q
    ensures p >= 2 && q >= 2 && !Divides(q, p)
  {
    if p < q {
      assert p % q == p;
    }
  }

  lemma Associate(p: nat, q: nat, l: int)
    requires p > 0 && q > 0
    ensures p * q > 0 && p * (q * l) == (p * q) * l
  {
  }

  /** Two distinct primes that divide a number divide it together. */
  lemma PrimePair(p: nat, q: nat, z: int)
    requires Prime(p) && Prime(q) && p != q && Divides(p, z) && Divides(q, z)
    ensures Divides(p * q, z)
  {
    PrimesApart(p, q);
    PrimeBeside(p, q, z);
  }

  /** Raising to e and then to d gives every residue back, when e * d is 1 modulo both p - 1 and q - 1. */
  lemma ExponentsCancel(p: nat, q: nat, e: nat, d: nat, m: nat, s: nat, t: nat)
    requires Prime(p) && Prime(q) && p != q && m < p * q
    requires e * d == 1 + (p - 1) * s == 1 + (q - 1) * t
    ensures Pow(Pow(m, e), d) % (p * q) == m
  {
    hide Pow, Prime;
    PowTimes(m, e, d);
    FermatPower(p, m, s);
    FermatPower(q, m, t);
    PrimePair(p, q, Pow(m, e * d) - m);
    CongruentRemainder(Pow(m, e * d), m, p * q);
  }

  // ----- keys with more primes -----

  lemma DividesThrough(d: nat, q: nat, x: int)
    requires d > 0 && q > 0 && Divides(d, q) && Divides(q, x)
    ensures Divides(d, x)
  {
    var k := Quotient(q, x);
    var l := Quotient(d, q);
    Associate(d, l, k);
    DividesMultiple(d, l * k);
  }

  /** A divisor with no smaller divisor is prime. */
  lemma LeastDivisor(p: nat) returns (q: nat)
    requires p >= 2 && !Prime(p)
    ensures Prime(q) && Divides(q, p) && q * q <= p
  {
    q := 2;
    var d: nat :| 2 <= d < p && Divides(d, p);
    while !Divides(q, p)
      invariant 2 <= q <= d && forall r: nat :: 2 <= r < q ==> !Divides(r, p)
      decreases d - q
    {
      q := q + 1;
    }
    forall r: nat | 2 <= r < q ensures !Divides(r, q) {
      if Divides(r, q) {
        DividesThrough(r, q, p);
      }
    }
    var k := Quotient(q, p);
    CofactorBound(q, k, p);
  }

  lemma CofactorBound(q: nat, k: int, p: nat)
    requires 2 <= q < p && p == q * k && forall r: nat :: 2 <= r < q ==> !Divides(r, p)
    ensures q * q <= p
  {
    MultipleBounds(k, q);
    assert k >= 2;
    if k < q {
      DividesMultiple(k, q);
    } else {
      MultipleBounds(k - q, q);
      assert q * k == (k - q) * q + q * q;
    }
  }

  /** Between 37 and 37^2, and divisible by no prime below 37. */
  predicate SmallPrime(p: nat) {
    && 37 <= p < 1369
    && p % 2 != 0 && p % 3 != 0 && p % 5 != 0 && p % 7 != 0 && p % 11 != 0 && p % 13 != 0
    && p % 17 != 0 && p % 19 != 0 && p % 23 != 0 && p % 29 != 0 && p % 31 != 0
  }

  lemma SmallPrimeIsPrime(p: nat)
    requires SmallPrime(p)
    ensures Prime(p)
  {
    if !Prime(p) {
      var q := LeastDivisor(p);
      SquareBelow(q, 37);
      SmallFactor(q, p);
    }
  }

  lemma SquareBelow(q: nat, b: nat)
    ensures q >= b ==> q * q >= b * b
  {
    if q >= b {
      AtLeast(q, b, q);
      AtLeast(b, b, q);
    }
  }

  lemma AtLeast(a: nat, b: nat, q: nat)
    requires b <= q
    ensures a * b <= a * q && b * a <= q * a
  {
    assert a * q == a * b + a * (q - b);
  }

  /** A number below 37 has one of the primes below 37 as a factor. */
  lemma SmallFactor(q: nat, p: nat)
    requires Prime(q) && q < 37 && Divides(q, p)
    ensures !SmallPrime(p)
  {
    hide Prime;
    PrimeBelow(q);
  }

  lemma PrimeBelow(q: nat)
    requires Prime(q) && q < 37
    ensures q in {2, 3, 5, 7, 11, 13, 17, 19, 23, 29, 31}
  {
    assert q > 2 ==> !Divides(2, q);
    assert q > 3 ==> !Divides(3, q);
    assert q > 5 ==> !Divides(5, q);
  }

  /** Raising to E gives every residue modulo n back, and n has no prime factor from b on. */
  ghost predicate Recovers(n: nat, E: nat, b: nat) {
    && n > 0 && (forall m: nat :: Divides(n, Pow(m, E) - m))
    && forall r: nat :: r >= b && Prime(r) ==> !Divides(r, n)
  }

  lemma RecoversOne(E: nat)
    ensures Recovers(1, E, 2)
  {
    forall r: nat | r >= 2 ensures !Divides(r, 1) {
      assert 1 % r == 1;
    }
  }

  /** One more prime, when E is 1 modulo p - 1. */
  lemma Extend(n: nat, E: nat, b: nat, p: nat) returns (n': nat)
    requires Recovers(n, E, b) && p >= b && SmallPrime(p) && E > 0 && (E - 1) % (p - 1) == 0
    ensures n' == n * p && Recovers(n', E, p + 1)
  {
    SmallPrimeIsPrime(p);
    n' := n * p;
    Associate(n, p, 1);
    var t := (E - 1) / (p - 1);
    assert E == 1 + (p - 1) * t;
    forall m: nat ensures Divides(n', Pow(m, E) - m) {
      FermatPower(p, m, t);
      PrimeBeside(n, p, Pow(m, E) - m);
    }
    forall r: nat | r >= p + 1 && Prime(r) ensures !Divides(r, n') {
      PrimesApart(p, r);
      if Divides(r, n') {
        Euclid(r, n, p);
      }
    }
  }

  lemma PrimeBeside(n: nat, p: nat, z: int)
    requires n > 0 && Prime(p) && !Divides(p, n) && Divides(n, z) && Divides(p, z)
    ensures n * p > 0 && Divides(n * p, z)
  {
    assert p > 0;
    hide Prime, Divides;
    var k := Quotient(n, z);
    EuclidSigned(p, n, k);
    var l := Quotient(p, k);
    Associate(n, p, l);
    DividesMultiple(n * p, l);
  }
}
