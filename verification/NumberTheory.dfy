/** The arithmetic behind the primality tests: congruences, primes, Euclid's lemma and Fermat's
    little theorem. */
module NumberTheory {
  import opened Masks

  // ----- Remainders -----

  lemma ModShift(x: int, m: int, k: int)
    requires m > 0
    ensures (x + m * k) % m == x % m
  {
    assert x + m * k == m * (x / m + k) + x % m;
    ModuloUnique(x + m * k, m, x / m + k, x % m);
  }

  lemma ModMul(a: int, b: int, m: int)
    requires m > 0
    ensures ((a % m) * (b % m)) % m == (a * b) % m
    ensures ((a % m) * b) % m == (a * b) % m
  {
    var q, r := a / m, b / m;
    assert a * b == (a % m) * b + m * (q * b) by {
      assert a == m * q + a % m;
      assert (m * q) * b == m * (q * b);
    }
    ModShift((a % m) * b, m, q * b);
    assert (a % m) * b == (a % m) * (b % m) + m * (r * (a % m)) by {
      assert b == m * r + b % m;
      assert (m * r) * (a % m) == m * (r * (a % m));
    }
    ModShift((a % m) * (b % m), m, r * (a % m));
  }

  lemma ModAdd(a: int, b: int, m: int)
    requires m > 0
    ensures (a % m + b % m) % m == (a + b) % m
    ensures (a + b % m) % m == (a + b) % m
  {
    ModShift(a + b % m, m, b / m);
    assert a + b % m + m * (b / m) == a + b;
    ModShift(a % m + b % m, m, a / m);
    assert a % m + b % m + m * (a / m) == a + b % m;
  }

  lemma MultipleIsDivisible(d: int, k: int)
    requires d > 0
    ensures (d * k) % d == 0
  {
    ModuloUnique(d * k, d, k, 0);
  }

  lemma DivisorOfProduct(a: int, b: int, d: int)
    requires d > 0 && a % d == 0
    ensures (a * b) % d == 0
  {
    assert a * b == d * ((a / d) * b);
    MultipleIsDivisible(d, (a / d) * b);
  }

  lemma DivisorsCompose(n: int, d: int, q: int)
    requires d > 0 && q > 0 && n % d == 0 && d % q == 0
    ensures n % q == 0
  {
    DivisorOfProduct(d, n / d, q);
  }

  lemma DivisorAtMost(n: int, d: int)
    requires n > 0 && d > 0 && n % d == 0
    ensures d <= n && n / d > 0
  {
    assert n == d * (n / d);
    MultipleAtLeast(d, n / d);
  }

  lemma DivisorOfSum(a: int, b: int, d: int)
    requires d > 0 && a % d == 0
    ensures (a + b) % d == 0 <==> b % d == 0
  {
    ModShift(b, d, a / d);
  }

  // ----- Primes -----

  ghost predicate IsPrime(n: int) {
    n >= 2 && forall d | 2 <= d < n :: n % d != 0
  }

  /** d is the least divisor of n above 1. */
  ghost predicate IsLeastDivisor(n: int, d: int) {
    2 <= d <= n && n % d == 0 && forall e | 2 <= e < d :: n % e != 0
  }

  /** No number from 2 up to (not including) hi divides n. */
  ghost predicate NoDivisorBelow(n: int, hi: int) {
    forall d | 2 <= d < hi :: n % d != 0
  }

  lemma LeastDivisorExists(n: int) returns (d: int)
    requires n >= 2
    ensures IsLeastDivisor(n, d) && IsPrime(d)
  {
    d := 2;
    while n % d != 0
      invariant 2 <= d <= n && NoDivisorBelow(n, d)
      decreases n - d
    {
      d := d + 1;
    }
    forall e | 2 <= e < d ensures d % e != 0 {
      if d % e == 0 { DivisorsCompose(n, d, e); }
    }
  }

  lemma LeastDivisorUnique(n: int, d: int, e: int)
    requires IsLeastDivisor(n, d) && IsLeastDivisor(n, e)
    ensures d == e
  {
  }

  lemma PrimeIffOwnLeastDivisor(n: int)
    requires n >= 2
    ensures IsPrime(n) <==> IsLeastDivisor(n, n)
  {
  }

  lemma Cofactor(n: int, d: int) returns (q: int)
    requires 2 <= d < n && n % d == 0
    ensures n == d * q && 2 <= q < n && n % q == 0
  {
    DivisorAtMost(n, d);
    q := n / d;
    assert n == d * q;
    assert d * 1 == d;
    MultipleIsDivisible(q, d);
    assert q * d == n;
    MultipleAtLeast(q, d - 1);
    assert q * d == q * (d - 1) + q;
  }

  /** Trial division may stop at the square root. */
  lemma NoDivisorToRoot(n: int, hi: int)
    requires n >= 2 && hi >= 0 && NoDivisorBelow(n, hi) && hi * hi > n
    ensures IsPrime(n)
  {
    forall d | 2 <= d < n ensures n % d != 0 {
      if n % d == 0 {
        var q := Cofactor(n, d);
        ProductAtLeast(hi, hi, d, q);
      }
    }
  }

  lemma ProductAtLeast(a: int, b: int, c: int, d: int)
    requires 0 <= a <= c && 0 <= b <= d
    ensures a * b <= c * d
  {
    assert c * d - a * b == (c - a) * d + a * (d - b);
    NonNegativeProduct(c - a, d);
    NonNegativeProduct(a, d - b);
  }

  lemma NonNegativeProduct(a: int, b: int)
    requires a >= 0 && b >= 0
    ensures a * b >= 0
  {
  }

  /** The least divisor of a composite number is at most its square root. */
  lemma LeastDivisorBelowRoot(n: int, d: int)
    requires IsLeastDivisor(n, d) && d < n
    ensures d * d <= n
  {
    if d * d > n {
      NoDivisorToRoot(n, d);
    }
  }

  /** The floor of the square root. */
  function FloorSqrt(n: nat): (r: nat)
    ensures r * r <= n < (r + 1) * (r + 1)
  {
    if n == 0 then 0 else
    var r := FloorSqrt(n - 1);
    if (r + 1) * (r + 1) <= n then r + 1 else r
  }

  lemma BelowFloorSqrt(n: nat, i: nat)
    ensures i <= FloorSqrt(n) <==> i * i <= n
  {
    var r := FloorSqrt(n);
    if i <= r { ProductAtLeast(i, i, r, r); } else { ProductAtLeast(r + 1, r + 1, i, i); }
  }

  // ----- Euclid's lemma -----

  ghost function Gcd(a: nat, b: nat): nat
    decreases b
  {
    if b == 0 then a else Gcd(b, a % b)
  }

  lemma {:induction false} Bezout(a: nat, b: nat) returns (x: int, y: int)
    ensures a * x + b * y == Gcd(a, b)
    decreases b
  {
    if b == 0 {
      x, y := 1, 0;
    } else {
      var u, v := Bezout(b, a % b);
      x, y := v, u - (a / b) * v;
      assert a * v + b * (u - (a / b) * v) == b * u + (a - b * (a / b)) * v;
    }
  }

  lemma {:induction false} GcdDivides(a: nat, b: nat)
    requires a > 0 || b > 0
    ensures Gcd(a, b) > 0 && a % Gcd(a, b) == 0 && b % Gcd(a, b) == 0
    decreases b
  {
    if b == 0 {
      MultipleIsDivisible(a, 1);
    } else {
      GcdDivides(b, a % b);
      var g := Gcd(a, b);
      assert a == b * (a / b) + a % b;
      DivisorOfProduct(b, a / b, g);
      DivisorOfSum(b * (a / b), a % b, g);
    }
  }

  /** A prime that divides a product divides a factor. */
  lemma EuclidsLemma(p: int, a: nat, b: int)
    requires IsPrime(p) && (a * b) % p == 0
    ensures a % p == 0 || b % p == 0
  {
    if a % p != 0 {
      var g := Gcd(a, p);
      GcdDivides(a, p);
      DivisorAtMost(p, g);
      assert g == 1;
      var x, y := Bezout(a, p);
      assert b == (a * b) * x + p * (y * b) by {
        assert (a * x + p * y) * b == b;
      }
      DivisorOfProduct(a * b, x, p);
      MultipleIsDivisible(p, y * b);
      DivisorOfSum((a * b) * x, p * (y * b), p);
    }
  }

  // ----- Numbers without a common divisor -----

  ghost predicate CommonDivisor(d: int, a: int, n: int) {
    d > 0 && a % d == 0 && n % d == 0
  }

  ghost predicate Coprime(a: int, n: int) {
    forall d | CommonDivisor(d, a, n) :: d == 1
  }

  /** A factor that shares nothing with the modulus can be cancelled. */
  lemma CoprimeCancel(a: int, x: int, n: int)
    requires n > 0 && Coprime(a, n) && (a * x) % n == 0
    ensures x % n == 0
  {
    var r, q := a % n, a / n;
    var g := Gcd(r, n);
    GcdDivides(r, n);
    DivisorOfProduct(n, q, g);
    DivisorOfSum(n * q, r, g);
    assert a == n * q + r && CommonDivisor(g, a, n);
    var u, v := Bezout(r, n);
    assert x == (a * x) * u + n * (x * v - q * x * u) by {
      assert (r * u + n * v) * x == x;
      assert r * u * x == (a * x) * u - n * (q * x * u);
    }
    DivisorOfProduct(a * x, u, n);
    MultipleIsDivisible(n, x * v - q * x * u);
    DivisorOfSum((a * x) * u, n * (x * v - q * x * u), n);
  }

  // ----- Powers -----

  function Pow(b: int, e: nat): int {
    if e == 0 then 1 else b * Pow(b, e - 1)
  }

  lemma {:induction false} PowAdd(b: int, e: nat, f: nat)
    ensures Pow(b, e + f) == Pow(b, e) * Pow(b, f)
    decreases e
  {
    if e > 0 {
      PowAdd(b, e - 1, f);
      assert b * (Pow(b, e - 1) * Pow(b, f)) == (b * Pow(b, e - 1)) * Pow(b, f);
    }
  }

  lemma {:induction false} PowMul(b: int, e: nat, f: nat)
    ensures Pow(b, e * f) == Pow(Pow(b, e), f)
    decreases f
  {
    if f > 0 {
      PowMul(b, e, f - 1);
      assert e * f == e + e * (f - 1);
      PowAdd(b, e, e * (f - 1));
    } else {
      assert e * f == 0;
    }
  }

  lemma {:induction false} PowMod(b: int, e: nat, m: int)
    requires m > 0
    ensures Pow(b % m, e) % m == Pow(b, e) % m
    decreases e
  {
    if e > 0 {
      PowMod(b, e - 1, m);
      ModMul(b % m, Pow(b % m, e - 1), m);
      ModMul(b, Pow(b, e - 1), m);
      assert (b % m) % m == b % m by { ModuloUnique(b % m, m, 0, b % m); }
    }
  }

  lemma {:induction false} PowPositive(b: int, e: nat)
    requires b > 0
    ensures Pow(b, e) > 0
    decreases e
  {
    if e > 0 { PowPositive(b, e - 1); }
  }

  // ----- Fermat's little theorem, by binomial coefficients -----

  function Choose(n: nat, k: nat): nat {
    if k == 0 then 1 else if n == 0 then 0 else Choose(n - 1, k - 1) + Choose(n - 1, k)
  }

  lemma {:induction false} ChooseBeyond(n: nat, k: nat)
    requires k > n
    ensures Choose(n, k) == 0
    decreases n
  {
    if n > 0 {
      ChooseBeyond(n - 1, k - 1);
      ChooseBeyond(n - 1, k);
    }
  }

  lemma {:induction false} ChooseAll(n: nat)
    ensures Choose(n, n) == 1
    decreases n
  {
    if n > 0 {
      ChooseAll(n - 1);
      ChooseBeyond(n - 1, n);
    }
  }

  lemma AbsorptionAlgebra(n: int, k: int, c: int, y: int, u: int, v: int)
    requires c == u + v && k * y == (n - 1) * v && (k - 1) * c == (n - 1) * u
    ensures k * (c + y) == n * c
  {
    assert k * (c + y) == (k - 1) * c + c + k * y;
    assert (n - 1) * c == (n - 1) * u + (n - 1) * v;
    assert n * c == (n - 1) * c + c;
  }

  /** k C(n, k) = n C(n - 1, k - 1). */
  lemma {:induction false} ChooseAbsorption(n: nat, k: nat)
    requires n > 0 && k > 0
    ensures k * Choose(n, k) == n * Choose(n - 1, k - 1)
    decreases n
  {
    if n == 1 {
      if k > 1 { ChooseBeyond(0, k - 1); ChooseBeyond(0, k); }
    } else {
      ChooseAbsorption(n - 1, k);
      if k > 1 {
        ChooseAbsorption(n - 1, k - 1);
        AbsorptionAlgebra(n, k, Choose(n - 1, k - 1), Choose(n - 1, k), Choose(n - 2, k - 2), Choose(n - 2, k - 1));
      } else {
        assert Choose(n - 1, 0) == 1 && Choose(n - 2, 0) == 1;
      }
    }
  }

  /** The terms C(n, j) a^j for j < k. */
  function BinomialSum(n: nat, a: int, k: nat): int {
    if k == 0 then 0 else BinomialSum(n, a, k - 1) + Choose(n, k - 1) * Pow(a, k - 1)
  }

  lemma BinomialNext(n: nat, a: int, k: nat)
    ensures BinomialSum(n, a, k + 1) == BinomialSum(n, a, k) + Choose(n, k) * Pow(a, k)
  {
  }

  lemma StepAlgebra(sum: int, a: int, x: int, y: int, p: int)
    ensures (sum + x * p) + a * sum + (x + y) * (a * p) == (sum + x * p) + y * (a * p) + a * (sum + x * p)
  {
    assert (x + y) * (a * p) == x * (a * p) + y * (a * p);
    assert a * (sum + x * p) == a * sum + a * (x * p);
    assert a * (x * p) == x * (a * p);
  }

  /** Pascal's rule, summed. */
  lemma {:induction false} BinomialStep(n: nat, a: int, k: nat)
    ensures BinomialSum(n + 1, a, k + 1) == BinomialSum(n, a, k + 1) + a * BinomialSum(n, a, k)
    decreases k
  {
    BinomialNext(n + 1, a, k);
    BinomialNext(n, a, k);
    if k > 0 {
      BinomialStep(n, a, k - 1);
      BinomialNext(n, a, k - 1);
      assert Choose(n + 1, k) == Choose(n, k - 1) + Choose(n, k) && Pow(a, k) == a * Pow(a, k - 1);
      StepAlgebra(BinomialSum(n, a, k - 1), a, Choose(n, k - 1), Choose(n, k), Pow(a, k - 1));
    }
  }

  lemma {:induction false} BinomialTheorem(n: nat, a: int)
    ensures Pow(a + 1, n) == BinomialSum(n, a, n + 1)
    decreases n
  {
    if n == 0 {
      BinomialNext(0, a, 0);
    } else {
      BinomialTheorem(n - 1, a);
      BinomialRow(n - 1, a);
      PowNext(a + 1, n - 1);
      var sum := BinomialSum(n - 1, a, n);
      assert (a + 1) * sum == a * sum + sum;
    }
  }

  lemma BinomialRow(n: nat, a: int)
    ensures BinomialSum(n + 1, a, n + 2) == BinomialSum(n, a, n + 1) + a * BinomialSum(n, a, n + 1)
  {
    BinomialStep(n, a, n + 1);
    ChooseBeyond(n, n + 1);
    BinomialNext(n, a, n + 1);
    assert Choose(n, n + 1) * Pow(a, n + 1) == 0;
  }

  lemma PowNext(b: int, e: nat)
    ensures Pow(b, e + 1) == b * Pow(b, e)
  {
  }

  lemma PrimeDividesChoose(p: int, k: nat)
    requires IsPrime(p) && 0 < k < p
    ensures Choose(p, k) % p == 0
  {
    ChooseAbsorption(p, k);
    MultipleIsDivisible(p, Choose(p - 1, k - 1));
    EuclidsLemma(p, k, Choose(p, k));
    ModuloUnique(k, p, 0, k);
  }

  /** Modulo a prime only the first term survives before the last. */
  lemma {:induction false} MiddleTermsVanish(p: int, a: int, k: nat)
    requires IsPrime(p) && 0 < k <= p
    ensures BinomialSum(p, a, k) % p == 1
    decreases k
  {
    if k == 1 {
      assert BinomialSum(p, a, 1) == BinomialSum(p, a, 0) + Choose(p, 0) * Pow(a, 0);
      ModuloUnique(1, p, 0, 1);
    } else {
      MiddleTermsVanish(p, a, k - 1);
      PrimeDividesChoose(p, k - 1);
      DivisorOfProduct(Choose(p, k - 1), Pow(a, k - 1), p);
      ModAdd(BinomialSum(p, a, k - 1), Choose(p, k - 1) * Pow(a, k - 1), p);
    }
  }

  lemma {:induction false} FermatPower(p: int, a: nat)
    requires IsPrime(p)
    ensures Pow(a, p) % p == a % p
    decreases a
  {
    if a == 0 {
      assert Pow(0, p) == 0 * Pow(0, p - 1);
    } else {
      FermatPower(p, a - 1);
      BinomialTheorem(p, a - 1);
      MiddleTermsVanish(p, a - 1, p);
      ChooseAll(p);
      assert Pow(a, p) == BinomialSum(p, a - 1, p) + Pow(a - 1, p);
      ModAdd(BinomialSum(p, a - 1, p), Pow(a - 1, p), p);
      ModAdd(1, a - 1, p);
    }
  }

  /** Fermat's little theorem. */
  lemma FermatLittle(p: int, a: nat)
    requires IsPrime(p) && a % p != 0
    ensures Pow(a, p - 1) % p == 1
  {
    FermatPower(p, a);
    var x := Pow(a, p - 1);
    assert Pow(a, p) == a * x;
    assert (a * (x - 1)) % p == 0 by {
      assert a * (x - 1) == a * x - a;
      ModDifference(a * x, a, p);
    }
    EuclidsLemma(p, a, x - 1);
    ModAdd(1, x - 1, p);
    ModuloUnique(1, p, 0, 1);
  }

  lemma ModDifference(x: int, y: int, m: int)
    requires m > 0
    ensures (x - y) % m == 0 <==> x % m == y % m
  {
    assert x - y == m * (x / m - y / m) + (x % m - y % m);
    if x % m == y % m {
      MultipleIsDivisible(m, x / m - y / m);
    } else if (x - y) % m == 0 {
      var k := (x - y) / m - (x / m - y / m);
      assert m * k == x % m - y % m;
      SmallMultiple(m, k);
    }
  }

  /** The only square roots of 1 modulo a prime are 1 and -1. */
  lemma SquareRootsOfOne(p: int, x: int)
    requires IsPrime(p) && 0 <= x < p && (x * x) % p == 1
    ensures x == 1 || x == p - 1
  {
    assert (x + 1) * (x - 1) == x * x - 1;
    ModuloUnique(1, p, 0, 1);
    ModDifference(x * x, 1, p);
    EuclidsLemma(p, x + 1, x - 1);
    if (x + 1) % p == 0 {
      if x + 1 < p { ModuloUnique(x + 1, p, 0, x + 1); }
    } else if x >= 1 {
      ModuloUnique(x - 1, p, 0, x - 1);
    } else {
      ModuloUnique(-1, p, -1, p - 1);
    }
  }
}
