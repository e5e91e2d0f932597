/** The Legendre symbol, the Jacobi symbol as its product over the prime factors, and the recursion by which
    the Jacobi loop (cpp/lib/BigPrime.h) computes it. */
module JacobiSymbol {
  import opened Masks
  import opened NumberTheory
  import opened Reciprocity

  // ----- Congruences -----

  lemma CongruentProduct(x: int, y: int, u: int, v: int, m: int)
    requires m > 0 && x % m == y % m && u % m == v % m
    ensures (x * u) % m == (y * v) % m
  {
    ModMul(x, u, m);
    ModMul(y, v, m);
  }

  /** A factor that a prime does not divide can be cancelled. */
  lemma CancelFactor(p: int, x: int, y: int, f: nat)
    requires IsPrime(p) && f % p != 0 && (x * f) % p == (y * f) % p
    ensures x % p == y % p
  {
    assert f * (x - y) == x * f - y * f;
    ModDifference(x * f, y * f, p);
    EuclidsLemma(p, f, x - y);
    ModDifference(x, y, p);
  }

  lemma SmallIsNotDivisible(p: int, k: int)
    requires 0 < k < p
    ensures k % p == k
  {
    ModuloUnique(k, p, 0, k);
  }

  lemma {:induction false} FactorialIsNotDivisible(p: int, j: nat)
    requires IsPrime(p) && j < p
    ensures ProductOf(UpTo(j)) % p != 0
    decreases j
  {
    if j == 0 {
      assert UpTo(j) == [];
      SmallIsNotDivisible(p, 1);
    } else {
      UpToStep(Same(), j);
      FactorialIsNotDivisible(p, j - 1);
      SmallIsNotDivisible(p, j);
      if ProductOf(UpTo(j)) % p == 0 {
        assert ProductOf(UpTo(j)) == j * ProductOf(UpTo(j - 1));
        EuclidsLemma(p, j, ProductOf(UpTo(j - 1)));
      }
    }
  }

  lemma {:induction false} FactorialIsPositive(j: nat)
    ensures ProductOf(UpTo(j)) > 0
    decreases j
  {
    if j == 0 {
      assert UpTo(j) == [];
    } else {
      UpToStep(Same(), j);
      FactorialIsPositive(j - 1);
      ProductAtLeast(1, 1, ProductOf(UpTo(j - 1)), j);
    }
  }

  // ----- Gauss's lemma -----

  lemma GaussStep(a: int, p: nat, k: nat)
    requires p > 0
    ensures (a * k) % p == (Sign(Upper(a, p, k)) * Nearest(a, p, k)) % p
  {
    var q := NearestIs(a, p, k);
    ModShift(Signed(Nearest(a, p, k), Upper(a, p, k) == 1), p, q);
  }

  lemma {:induction false} GaussProduct(a: int, p: nat, j: nat)
    requires p > 0
    ensures (Pow(a, j) * ProductOf(UpTo(j))) % p ==
              (Sign(SumOver(UpperOf(a, p), UpTo(j))) * ProductOf(Nears(a, p, j))) % p
    decreases j
  {
    if j == 0 {
      assert UpTo(j) == [] && Nears(a, p, j) == [];
    } else {
      GaussProduct(a, p, j - 1);
      GaussStep(a, p, j);
      UpToStep(UpperOf(a, p), j);
      NearsStep(Same(), a, p, j);
      SignOfSum(SumOver(UpperOf(a, p), UpTo(j - 1)), Upper(a, p, j));
      GaussAlgebra(a, j, Pow(a, j - 1), ProductOf(UpTo(j - 1)), Sign(SumOver(UpperOf(a, p), UpTo(j - 1))),
                   ProductOf(Nears(a, p, j - 1)), Sign(Upper(a, p, j)), Nearest(a, p, j), p);
    }
  }

  lemma GaussAlgebra(a: int, j: int, power: int, fact: int, s: int, near: int, s1: int, near1: int, p: int)
    requires p > 0 && (power * fact) % p == (s * near) % p && (a * j) % p == (s1 * near1) % p
    ensures ((a * power) * (fact * j)) % p == ((s * s1) * (near * near1)) % p
  {
    CongruentProduct(power * fact, s * near, a * j, s1 * near1, p);
    assert (power * fact) * (a * j) == (a * power) * (fact * j);
    assert (s * near) * (s1 * near1) == (s * s1) * (near * near1);
  }

  /** The symbol of a modulo a prime p is a to the (p - 1) / 2. */
  lemma GaussLemma(a: int, p: nat)
    requires IsPrime(p) && p % 2 == 1 && Coprime(a, p)
    ensures Pow(a, p / 2) % p == Symbol(a, p) % p
  {
    var f := ProductOf(UpTo(p / 2));
    GaussProduct(a, p, p / 2);
    NearsPermute(Same(), a, p);
    FactorialIsNotDivisible(p, p / 2);
    FactorialIsPositive(p / 2);
    CancelFactor(p, Pow(a, p / 2), Symbol(a, p), f);
  }

  // ----- Products of pairs -----

  /** f pairs off the entries of s. */
  ghost predicate PairedBy(f: int -> int, s: seq<int>) {
    Distinct(s) && forall x | x in s :: f(x) in s && f(x) != x && f(f(x)) == x
  }

  lemma InWithout(s: seq<int>, i: nat, y: int)
    requires i < |s| && Distinct(s)
    ensures y in Without(s, i) <==> y in s && y != s[i]
  {
    var t := Without(s, i);
    if y in s && y != s[i] {
      var j :| 0 <= j < |s| && s[j] == y;
      assert t[if j < i then j else j - 1] == y;
    }
    if y in t {
      var j :| 0 <= j < |t| && t[j] == y;
      assert s[if j < i then j else j + 1] == y;
    }
  }

  lemma InWithoutBoth(s: seq<int>, i: nat, j: nat, y: int)
    requires j < i < |s| && Distinct(s)
    ensures y in Without(Without(s, i), j) <==> y in s && y != s[i] && y != s[j]
  {
    InWithout(s, i, y);
    InWithout(Without(s, i), j, y);
  }

  /** Taking out a pair leaves the others paired. */
  lemma PairTaken(f: int -> int, s: seq<int>, i: nat, j: nat)
    requires PairedBy(f, s) && j < i < |s| && f(s[i]) == s[j]
    ensures PairedBy(f, Without(Without(s, i), j))
  {
    var t := Without(Without(s, i), j);
    forall x | x in t ensures f(x) in t && f(x) != x && f(f(x)) == x {
      InWithoutBoth(s, i, j, x);
      InWithoutBoth(s, i, j, f(x));
    }
  }

  /** x and y multiply to a. */
  ghost predicate Pair(a: int, p: int, x: int, y: int) {
    p > 0 && (x * y) % p == a % p
  }

  lemma Reorder(q: int, y: int, x: int)
    ensures q * y * x == (x * y) * q
  {
    assert q * y * x == q * (y * x);
  }

  lemma {:induction false} PairProduct(a: int, p: int, f: int -> int, s: seq<int>)
    requires PairedBy(f, s) && p > 0 && forall x | x in s :: Pair(a, p, x, f(x))
    ensures |s| % 2 == 0 && ProductOf(s) % p == Pow(a, |s| / 2) % p
    decreases |s|
  {
    if s != [] {
      var i := |s| - 1;
      var j :| 0 <= j < |s| && s[j] == f(s[i]);
      var t := Without(Without(s, i), j);
      PairTaken(f, s, i, j);
      forall x | x in t ensures Pair(a, p, x, f(x)) { InWithoutBoth(s, i, j, x); }
      PairProduct(a, p, f, t);
      ProductWithout(s, i);
      ProductWithout(Without(s, i), j);
      Reorder(ProductOf(t), s[j], s[i]);
      CongruentProduct(s[i] * s[j], a, ProductOf(t), Pow(a, |t| / 2), p);
    }
  }

  // ----- Euler's criterion -----

  /** The number that multiplies with x to a. */
  function PartnerOf(a: int, p: int): int -> int {
    x => if p < 2 || x < 0 then 0 else (a * Pow(x, p - 2)) % p
  }

  lemma PartnerPairs(a: int, p: int, x: int)
    requires IsPrime(p) && a % p != 0 && 0 < x < p
    ensures 0 < PartnerOf(a, p)(x) < p && Pair(a, p, x, PartnerOf(a, p)(x))
  {
    var z := Pow(x, p - 2);
    var y := (a * z) % p;
    SmallIsNotDivisible(p, x);
    SmallIsNotDivisible(p, 1);
    FermatLittle(p, x);
    PartnerAlgebra(a, p, x, z);
    if y == 0 { ModuloUnique(0, p, 0, 0); }
  }

  lemma PartnerAlgebra(a: int, p: int, x: int, z: int)
    requires p > 1 && (x * z) % p == 1 % p
    ensures (x * ((a * z) % p)) % p == a % p
  {
    CongruentProduct(x * z, 1, a, a, p);
    ModMul(a * z, x, p);
    assert x * ((a * z) % p) == ((a * z) % p) * x;
    assert (a * z) * x == (x * z) * a;
  }

  lemma PartnerIsUnique(a: int, p: int, x: int, y: int, z: int)
    requires IsPrime(p) && 0 < x < p && 0 < y < p && 0 < z < p && Pair(a, p, x, y) && Pair(a, p, x, z)
    ensures y == z
  {
    SmallIsNotDivisible(p, x);
    assert y * x == x * y && z * x == x * z;
    CancelFactor(p, y, z, x);
    SmallIsNotDivisible(p, y);
    SmallIsNotDivisible(p, z);
  }

  lemma PartnerReturns(a: int, p: int, x: int)
    requires IsPrime(p) && a % p != 0 && 0 < x < p
    ensures var f := PartnerOf(a, p); f(f(x)) == x
  {
    var f := PartnerOf(a, p);
    var y := f(x);
    PartnerPairs(a, p, x);
    PartnerPairs(a, p, y);
    assert x * y == y * x;
    PartnerIsUnique(a, p, y, x, f(y));
  }

  ghost predicate IsSquareOf(a: int, p: int, x: int) {
    p > 0 && (x * x) % p == a % p
  }

  /** a is a square modulo p. */
  ghost predicate IsResidue(a: int, p: int) {
    exists x :: IsSquareOf(a, p, x)
  }

  lemma SquareOfRemainder(x: int, p: int)
    requires p > 0
    ensures ((x % p) * (x % p)) % p == (x * x) % p
  {
    ModMul(x, x, p);
  }

  /** The numbers from 2 to p - 2 pair off with their inverses. */
  lemma InversesPair(p: int, s: seq<int>)
    requires IsPrime(p) && p > 2 && |s| == p - 3 && forall i | 0 <= i < |s| :: s[i] == i + 2
    ensures PairedBy(PartnerOf(1, p), s)
  {
    var f := PartnerOf(1, p);
    SmallIsNotDivisible(p, 1);
    forall x | x in s ensures f(x) in s && f(x) != x && f(f(x)) == x {
      PartnerPairs(1, p, x);
      PartnerReturns(1, p, x);
      var y := f(x);
      if x * x % p == 1 { SquareRootsOfOne(p, x); }
      SelfInverses(p, x, y);
      assert s[y - 2] == y;
    }
  }

  /** Only 1 and p - 1 are inverse to 1 and p - 1. */
  lemma SelfInverses(p: int, x: int, y: int)
    requires IsPrime(p) && 1 < x < p - 1 && 0 < y < p && Pair(1, p, x, y)
    ensures 1 < y < p - 1
  {
    SmallIsNotDivisible(p, 1);
    SmallIsNotDivisible(p, x);
    if y == p - 1 {
      assert x * y == p * (x - 1) + (p - x);
      ModuloUnique(x * y, p, x - 1, p - x);
    }
  }

  /** Wilson's theorem. */
  lemma WilsonsTheorem(p: int)
    requires IsPrime(p) && p > 2
    ensures ProductOf(UpTo(p - 1)) % p == p - 1
  {
    var s := Without(UpTo(p - 2), 0);
    InversesPair(p, s);
    forall x | x in s ensures Pair(1, p, x, PartnerOf(1, p)(x)) {
      SmallIsNotDivisible(p, 1);
      PartnerPairs(1, p, x);
    }
    PairProduct(1, p, PartnerOf(1, p), s);
    PowerOfOne(|s| / 2);
    ProductWithout(UpTo(p - 2), 0);
    UpToStep(Same(), p - 1);
    CongruentProduct(ProductOf(s), 1, p - 1, p - 1, p);
    SmallIsNotDivisible(p, p - 1);
  }

  lemma {:induction false} PowerOfOne(e: nat)
    ensures Pow(1, e) == 1
    decreases e
  {
    if e > 0 { PowerOfOne(e - 1); }
  }

  /** When a is not a square, the numbers from 1 to p - 1 pair off to products of a. */
  lemma NonResiduePairs(a: int, p: int)
    requires IsPrime(p) && p > 2 && a % p != 0 && !IsResidue(a, p)
    ensures PairedBy(PartnerOf(a, p), UpTo(p - 1))
  {
    var f, s := PartnerOf(a, p), UpTo(p - 1);
    forall x | x in s ensures f(x) in s && f(x) != x && f(f(x)) == x {
      PartnerPairs(a, p, x);
      PartnerReturns(a, p, x);
      assert !IsSquareOf(a, p, x);
      assert s[f(x) - 1] == f(x);
    }
  }

  /** Euler's criterion: a to the (p - 1) / 2 is 1 for a square and -1 for any other number that p does not
      divide. */
  lemma EulersCriterion(a: int, p: int)
    requires IsPrime(p) && p > 2 && a % p != 0
    ensures Pow(a, p / 2) % p == if IsResidue(a, p) then 1 else p - 1
  {
    OddPrime(p);
    if x :| IsSquareOf(a, p, x) {
      SquareHasPowerOne(a, p, x);
    } else {
      NonResiduePairs(a, p);
      forall x | x in UpTo(p - 1) ensures Pair(a, p, x, PartnerOf(a, p)(x)) {
        PartnerPairs(a, p, x);
      }
      PairProduct(a, p, PartnerOf(a, p), UpTo(p - 1));
      WilsonsTheorem(p);
    }
  }

  lemma OddPrime(p: int)
    requires IsPrime(p) && p > 2
    ensures p % 2 == 1 && (p - 1) / 2 == p / 2
  {
  }

  lemma SquareHasPowerOne(a: int, p: int, x: int)
    requires IsPrime(p) && p > 2 && a % p != 0 && IsSquareOf(a, p, x)
    ensures Pow(a, p / 2) % p == 1
  {
    var y, h := x % p, p / 2;
    OddPrime(p);
    SquareOfRemainder(x, p);
    if y == 0 { ModuloUnique(0, p, 0, 0); }
    SmallIsNotDivisible(p, y);
    FermatLittle(p, y);
    assert Pow(y, 2) == y * y by { assert Pow(y, 2) == y * Pow(y, 1) && Pow(y, 1) == y * Pow(y, 0); }
    PowMul(y, 2, h);
    PowMod(y * y, h, p);
    PowMod(a, h, p);
  }

  // ----- The Legendre symbol -----

  /** 0 for a multiple of p, 1 for another square modulo p, and -1 for a number that is no square. */
  ghost function Legendre(a: int, p: nat): (s: int)
    requires p > 0
  {
    if a % p == 0 then 0 else if IsResidue(a, p) then 1 else -1
  }

  lemma PrimeIsCoprime(a: int, p: int)
    requires IsPrime(p)
    ensures Coprime(a, p) <==> a % p != 0
  {
    if a % p == 0 {
      ModuloUnique(p, p, 1, 0);
      assert CommonDivisor(p, a, p);
    } else {
      forall d | CommonDivisor(d, a, p) ensures d == 1 {
        DivisorAtMost(p, d);
      }
    }
  }

  lemma MinusOneModulo(p: int)
    requires p > 1
    ensures -1 % p == p - 1 && 1 % p == 1
  {
    ModuloUnique(-1, p, -1, p - 1);
    ModuloUnique(1, p, 0, 1);
  }

  /** Counting gives the Legendre symbol of an odd prime. */
  lemma SymbolIsLegendre(a: int, p: nat)
    requires IsPrime(p) && p > 2 && a % p != 0
    ensures Symbol(a, p) == Legendre(a, p)
  {
    OddPrime(p);
    PrimeIsCoprime(a, p);
    GaussLemma(a, p);
    EulersCriterion(a, p);
    MinusOneModulo(p);
  }

  // ----- The symbol of a product below -----

  lemma CoprimeToFactor(a: int, m: int, n: int)
    requires m > 0 && n > 0 && Coprime(a, m * n)
    ensures Coprime(a, m) && Coprime(a, n)
  {
    forall d | CommonDivisor(d, a, m) ensures d == 1 {
      DivisorOfProduct(m, n, d);
      assert CommonDivisor(d, a, m * n);
    }
    forall d | CommonDivisor(d, a, n) ensures d == 1 {
      DivisorOfProduct(n, m, d);
      assert n * m == m * n;
      assert CommonDivisor(d, a, m * n);
    }
  }

  lemma CoprimeOfRemainder(a: int, b: int, n: int)
    requires n > 0 && a % n == b % n && Coprime(a, n)
    ensures Coprime(b, n)
  {
    forall d | CommonDivisor(d, b, n) ensures d == 1 {
      ModDifference(a, b, n);
      DivisorsCompose(a - b, n, d);
      DivisorOfSum(b, a - b, d);
      assert CommonDivisor(d, a, n);
    }
  }

  lemma OddTimesOdd(m: nat, n: nat)
    requires m % 2 == 1 && n % 2 == 1
    ensures (m * n) % 2 == 1
    ensures (m * n) % 4 == 3 <==> (m % 4 == 3) != (n % 4 == 3)
  {
    ModMul(m, n, 4);
    var x, r := m * n, (m % 4) * (n % 4);
    assert (m % 4 == 1 || m % 4 == 3) && (n % 4 == 1 || n % 4 == 3);
    OddModuloFour(x, r);
  }

  lemma OddModuloFour(x: int, r: int)
    requires r % 4 == x % 4 && (r == 1 || r == 3 || r == 9)
    ensures x % 2 == 1 && (x % 4 == 3 <==> r == 3)
  {
  }

  /** The symbol is multiplicative in its second argument, for an odd first one: exchange, multiply, exchange back. */
  lemma OddSymbolBelow(b: nat, m: nat, n: nat)
    requires b % 2 == 1 && m % 2 == 1 && n % 2 == 1 && Coprime(b, m * n)
    ensures Symbol(b, m * n) == Symbol(b, m) * Symbol(b, n)
  {
    CoprimeToFactor(b, m, n);
    CoprimeIsSymmetric(b, m);
    CoprimeIsSymmetric(b, n);
    OddTimesOdd(m, n);
    SymbolExchange(b, m * n);
    SymbolExchange(b, m);
    SymbolExchange(b, n);
    SymbolOfProduct(m, n, b);
  }

  lemma ShiftedRemainder(b: int, m: nat, n: nat)
    requires m > 0 && n > 0
    ensures (b + m * n) % m == b % m && (b + m * n) % n == b % n && (b + m * n) % (m * n) == b % (m * n)
  {
    ModShift(b, m, n);
    ModShift(b, n, m);
    assert n * m == m * n;
    ModShift(b, m * n, 1);
  }

  lemma SumIsOdd(a: nat, x: nat)
    requires a % 2 == 0 && x % 2 == 1
    ensures (a + x) % 2 == 1
  {
  }

  /** The symbol is multiplicative in its second argument. */
  lemma SymbolBelow(a: nat, m: nat, n: nat)
    requires m % 2 == 1 && n % 2 == 1 && Coprime(a, m * n)
    ensures Symbol(a, m * n) == Symbol(a, m) * Symbol(a, n)
  {
    if a % 2 == 1 {
      OddSymbolBelow(a, m, n);
    } else {
      var x := m * n;
      OddTimesOdd(m, n);
      ShiftedRemainder(a, m, n);
      SumIsOdd(a, x);
      ShiftedSymbol(a, a + x, m, n, x);
    }
  }

  lemma ShiftedSymbol(a: nat, b: nat, m: nat, n: nat, x: nat)
    requires m % 2 == 1 && n % 2 == 1 && x == m * n > 0 && Coprime(a, x) && b % 2 == 1
    requires b % m == a % m && b % n == a % n && b % x == a % x
    ensures Symbol(a, x) == Symbol(a, m) * Symbol(a, n)
  {
    CoprimeOfRemainder(a, b, x);
    OddSymbolBelow(b, m, n);
    SymbolOfRemainder(a, b, x);
    SymbolOfRemainder(a, b, m);
    SymbolOfRemainder(a, b, n);
  }

  // ----- The Jacobi symbol -----

  /** The least divisor of n from d on. */
  function LeastFactor(n: int, d: int): (p: int)
    requires 2 <= d <= n && forall e | 2 <= e < d :: n % e != 0
    ensures IsLeastDivisor(n, p)
    decreases n - d
  {
    if n % d == 0 then d else
    assert d < n by { ModuloUnique(n, n, 1, 0); }
    LeastFactor(n, d + 1)
  }

  lemma FactorOut(n: nat, p: nat)
    requires n > 1 && n % 2 == 1 && IsLeastDivisor(n, p)
    ensures IsPrime(p) && p > 2 && 0 < n / p < n && n / p % 2 == 1 && n == p * (n / p)
  {
    var q := n / p;
    assert n == p * q;
    forall e | 2 <= e < p ensures p % e != 0 {
      if p % e == 0 { DivisorsCompose(n, p, e); }
    }
    DivisorAtMost(n, p);
    ProductParity(p, q);
    ProductAtLeast(2, q, p, q);
  }

  /** The Jacobi symbol: the product of the Legendre symbols over the prime factors of n. */
  ghost function Jacobi(a: int, n: nat): int
    requires n % 2 == 1
  {
    if n == 1 then 1 else
    var p := LeastFactor(n, 2);
    FactorOut(n, p);
    Legendre(a, p) * Jacobi(a, n / p)
  }

  lemma JacobiStep(a: int, n: nat) returns (p: nat, q: nat)
    requires n > 1 && n % 2 == 1
    ensures IsPrime(p) && p > 2 && n == p * q && 0 < q < n && q % 2 == 1
    ensures Jacobi(a, n) == Legendre(a, p) * Jacobi(a, q)
  {
    p := LeastFactor(n, 2);
    q := n / p;
    FactorOut(n, p);
  }

  /** Counting gives the Jacobi symbol. */
  lemma {:induction false} SymbolIsJacobi(a: nat, n: nat)
    requires n % 2 == 1 && Coprime(a, n)
    ensures Symbol(a, n) == Jacobi(a, n)
    decreases n
  {
    if n == 1 {
      assert UpTo(0) == [];
    } else {
      var p, q := JacobiStep(a, n);
      CoprimeToFactor(a, p, q);
      PrimeIsCoprime(a, p);
      OddPrime(p);
      SymbolIsLegendre(a, p);
      SymbolIsJacobi(a, q);
      SymbolBelow(a, p, q);
    }
  }

  /** A common prime factor makes the Jacobi symbol 0. */
  lemma {:induction false} CommonPrimeVanishes(a: int, n: nat, r: nat)
    requires n % 2 == 1 && IsPrime(r) && a % r == 0 && n % r == 0
    ensures Jacobi(a, n) == 0
    decreases n
  {
    DivisorAtMost(n, r);
    var p, q := JacobiStep(a, n);
    EuclidsLemma(r, p, q);
    if p % r == 0 {
      DivisorAtMost(p, r);
      assert r == p;
    } else {
      CommonPrimeVanishes(a, q, r);
    }
  }

  /** The Jacobi symbol depends on a modulo n only. */
  lemma {:induction false} JacobiOfRemainder(a: int, b: int, n: nat)
    requires n % 2 == 1 && a % n == b % n
    ensures Jacobi(a, n) == Jacobi(b, n)
    decreases n
  {
    if n > 1 {
      var p := LeastFactor(n, 2);
      FactorOut(n, p);
      var q := n / p;
      ModDifference(a, b, n);
      MultipleIsDivisible(q, p);
      assert q * p == n;
      DivisorsCompose(a - b, n, p);
      DivisorsCompose(a - b, n, q);
      ModDifference(a, b, p);
      ModDifference(a, b, q);
      LegendreOfRemainder(a, b, p);
      JacobiOfRemainder(a, b, q);
    }
  }

  lemma LegendreOfRemainder(a: int, b: int, p: nat)
    requires p > 0 && a % p == b % p
    ensures Legendre(a, p) == Legendre(b, p)
  {
    if x :| IsSquareOf(a, p, x) { assert IsSquareOf(b, p, x); }
    if x :| IsSquareOf(b, p, x) { assert IsSquareOf(a, p, x); }
  }

  /** The Jacobi symbol is 0 exactly when the arguments share a factor. */
  lemma JacobiVanishes(a: int, n: nat)
    requires n % 2 == 1
    ensures Jacobi(a, n) == 0 <==> !Coprime(a, n)
    ensures -1 <= Jacobi(a, n) <= 1
  {
    var b := a % n;
    ModuloUnique(b, n, 0, b);
    JacobiOfRemainder(a, b, n);
    if Coprime(a, n) {
      CoprimeOfRemainder(a, b, n);
      SymbolIsJacobi(b, n);
    } else {
      var d :| CommonDivisor(d, a, n) && d != 1;
      var r := LeastDivisorExists(d);
      DivisorsCompose(a, d, r);
      DivisorsCompose(n, d, r);
      CommonPrimeVanishes(a, n, r);
    }
  }

  // ----- The laws that the loop applies -----

  lemma OddSharesNoTwoWith(a: nat, n: nat)
    requires a % 2 == 0 && n % 2 == 1
    ensures Coprime(a / 2, n) <==> Coprime(a, n)
  {
    var half := a / 2;
    OddSharesNoTwo(n);
    forall d | CommonDivisor(d, half, n) ensures CommonDivisor(d, a, n) {
      DivisorOfProduct(half, 2, d);
    }
    forall d | CommonDivisor(d, a, n) ensures CommonDivisor(d, half, n) {
      OddDivisorOfDouble(half, d, n);
    }
  }

  lemma OddDivisorOfDouble(half: nat, d: int, n: nat)
    requires n % 2 == 1 && CommonDivisor(d, 2 * half, n)
    ensures CommonDivisor(d, half, n)
  {
    if d % 2 == 0 { DivisorsCompose(n, d, 2); }
    OddSharesNoTwo(d);
    CoprimeCancel(2, half, d);
  }

  /** A factor 2 changes the sign when n is 3 or 5 modulo 8. */
  lemma JacobiHalves(a: nat, n: nat)
    requires a % 2 == 0 && n % 2 == 1
    ensures Jacobi(a, n) == Signed(Jacobi(a / 2, n), n % 8 == 3 || n % 8 == 5)
  {
    var half := a / 2;
    OddSharesNoTwoWith(a, n);
    JacobiVanishes(a, n);
    JacobiVanishes(half, n);
    if Coprime(a, n) {
      OddSharesNoTwo(n);
      SymbolIsJacobi(a, n);
      SymbolIsJacobi(half, n);
      SymbolOfProduct(2, half, n);
      SymbolOfTwo(n);
      assert 2 * half == a;
    }
  }

  /** Exchanging odd arguments changes the sign when both are 3 modulo 4. */
  lemma JacobiExchange(a: nat, n: nat)
    requires a % 2 == 1 && n % 2 == 1
    ensures Jacobi(a, n) == Signed(Jacobi(n, a), a % 4 == 3 && n % 4 == 3)
  {
    JacobiVanishes(a, n);
    JacobiVanishes(n, a);
    if Coprime(a, n) {
      CoprimeIsSymmetric(a, n);
      SymbolIsJacobi(a, n);
      SymbolIsJacobi(n, a);
      SymbolExchange(a, n);
    } else if Coprime(n, a) {
      CoprimeIsSymmetric(n, a);
    }
  }

  lemma JacobiOfZero(n: nat)
    requires n % 2 == 1
    ensures Jacobi(0, n) == if n == 1 then 1 else 0
  {
    if n > 1 {
      var p, q := JacobiStep(0, n);
      ModuloUnique(0, p, 0, 0);
    }
  }
}
