/** The later stages of isPrimeQR (cpp/lib/BigPrime.h): Euler's test on the bases of the table, checked against
    quadratic reciprocity, and Fermat's test on four bases. */
module ReciprocityTest {
  import opened Masks
  import opened NumberTheory
  import opened Reciprocity
  import opened JacobiSymbol
  import opened PrimeTests

  /** leg2Big: the symbol of 2. */
  function Leg2Big(n: int): (r: int)
    ensures n > 0 && n % 2 == 1 ==> r == Jacobi(2, n)
    ensures n % 2 == 0 ==> r == 0
  {
    NormalizedRemainder(n, 8);
    var m8 := PrimeTests.Remainder(PrimeTests.Remainder(n, 8) + 8, 8);
    assert n > 0 && n % 2 == 1 ==> Jacobi(2, n) == Symbol(2, n) by {
      if n > 0 && n % 2 == 1 { JacobiOfTwo(n); }
    }
    assert n > 0 && n % 2 == 1 ==> Symbol(2, n) == Signed(1, n % 8 == 3 || n % 8 == 5) by {
      if n > 0 && n % 2 == 1 { SymbolOfTwo(n); }
    }
    OctantParity(n);
    if m8 == 1 || m8 == 7 then 1 else if m8 == 3 || m8 == 5 then -1 else 0
  }

  lemma OctantParity(n: int)
    ensures n % 2 == 0 <==> n % 8 == 0 || n % 8 == 2 || n % 8 == 4 || n % 8 == 6
  {
  }

  lemma JacobiOfTwo(n: nat)
    requires n % 2 == 1
    ensures Jacobi(2, n) == Symbol(2, n)
  {
    OddSharesNoTwo(n);
    SymbolIsJacobi(2, n);
  }

  /** -1, 1 or 0 as a power is n - 1, 1 or neither. */
  function UnitOf(power: int, n: int): int {
    if power == n - 1 then -1 else if power == 1 then 1 else 0
  }

  /** Euler's test: p to the (n - 1) / 2 is the Jacobi symbol of p. */
  ghost predicate EulerAccepts(n: nat, p: int)
    requires n % 2 == 1
  {
    Pow(p, n / 2) % n == Jacobi(p, n) % n
  }

  lemma UnitIsSymbol(n: nat, x: int, s: int)
    requires n > 2 && 0 <= x < n && (s == 1 || s == -1)
    ensures UnitOf(x, n) == s <==> x == s % n
  {
    MinusOneModulo(n);
  }

  lemma TableEntryIsCoprime(n: nat, p: nat)
    requires n % 2 == 1 && IsPrime(p) && n % p != 0
    ensures Coprime(p, n) && (Jacobi(p, n) == 1 || Jacobi(p, n) == -1)
  {
    PrimeIsCoprime(n, p);
    CoprimeIsSymmetric(n, p);
    JacobiVanishes(p, n);
  }

  lemma FactorOfPrime(p: int, r: int, q: int)
    requires IsPrime(p) && p == r * q && r > 1 && q > 0
    ensures r == p && q == 1
  {
    MultipleIsDivisible(r, q);
    DivisorAtMost(p, r);
    if q > 1 { ProductAtLeast(r, 2, r, q); }
  }

  lemma JacobiOfPrime(a: int, p: nat)
    requires IsPrime(p) && p > 2
    ensures p % 2 == 1 && Jacobi(a, p) == Legendre(a, p)
  {
    OddPrime(p);
    var r, q := JacobiStep(a, p);
    FactorOfPrime(p, r, q);
    assert Jacobi(a, 1) == 1;
  }

  /** What the reciprocity stage compares is equal for every n that p does not divide, prime or not. */
  lemma ReciprocityNeverRejects(n: nat, p: nat)
    requires n % 2 == 1 && IsPrime(p) && p > 2 && n % p != 0
    ensures Jacobi(p, n) == Sign(p / 2 * (n / 2)) * UnitOf(Pow(n, p / 2) % p, p)
  {
    JacobiOfPrime(n, p);
    EulersCriterion(n, p);
    JacobiExchange(p, n);
    ProductParity(p / 2, n / 2);
    HalfIsOdd(p);
    HalfIsOdd(n);
  }

  /** One base of the table: the reciprocity comparison, which never rejects, and Euler's test. */
  method EulerRound(n: int, p: int) returns (accepted: bool)
    requires n > 2 && n % 2 == 1 && IsPrime(p) && n % p != 0
    ensures accepted <==> EulerAccepts(n, p)
  {
    var nMinus1Over2 := (n - 1) / 2;
    assert nMinus1Over2 == n / 2;
    TableEntryIsCoprime(n, p);
    if p == 2 {
      var pn := Leg2Big(n);
      var e := ModularPower(2, nMinus1Over2, n);
      UnitIsSymbol(n, e, pn);
      return UnitOf(e, n) == pn;
    }
    OddPrime(p);
    var pMinus1Over2 := (p - 1) / 2;
    var npRaw := ModularPower(n % p, pMinus1Over2, p);
    PowMod(n, pMinus1Over2, p);
    var npn := UnitOf(npRaw, p);
    var pn := JacobiBig(p, n);
    var exponent := pMinus1Over2 * nMinus1Over2;
    var sign := if exponent % 2 == 1 then -1 else 1;
    ReciprocityNeverRejects(n, p);
    if pn != sign * npn {
      assert false; // never reached
    }
    var eu := ModularPower(p, nMinus1Over2, n);
    UnitIsSymbol(n, eu, pn);
    return UnitOf(eu, n) == pn;
  }

  /** A prime passes Euler's test for every base that it does not divide. */
  lemma PrimePassesEuler(n: nat, p: nat)
    requires IsPrime(n) && n > 2 && p % n != 0
    ensures n % 2 == 1 && EulerAccepts(n, p)
  {
    JacobiOfPrime(p, n);
    EulersCriterion(p, n);
    MinusOneModulo(n);
  }

  // ----- Fermat's test -----

  const FERMAT_BASES: seq<int> := [2, 3, 5, 7]

  ghost predicate FermatAccepts(n: int, b: int)
    requires n > 0
  {
    n > 1 && Pow(b, n - 1) % n == 1
  }

  ghost predicate FermatAcceptsAll(n: int)
    requires n > 0
  {
    forall i | 0 <= i < |FERMAT_BASES| :: FermatAccepts(n, FERMAT_BASES[i])
  }

  method FermatRounds(n: int) returns (accepted: bool)
    requires n > 1
    ensures accepted <==> FermatAcceptsAll(n)
  {
    var i := 0;
    while i < |FERMAT_BASES|
      invariant 0 <= i <= |FERMAT_BASES| && forall j | 0 <= j < i :: FermatAccepts(n, FERMAT_BASES[j])
    {
      var result := ModularPower(FERMAT_BASES[i], n - 1, n);
      if result != 1 { return false; }
      i := i + 1;
    }
    return true;
  }

  /** A prime passes Fermat's test unless it is one of the bases itself. */
  lemma PrimePassesFermat(n: int)
    requires IsPrime(n) && n > 2
    ensures FermatAcceptsAll(n) <==> n != 3 && n != 5 && n != 7
  {
    forall i | 0 <= i < |FERMAT_BASES| ensures FermatAccepts(n, FERMAT_BASES[i]) <==> n != FERMAT_BASES[i] {
      FermatForBase(n, FERMAT_BASES[i]);
    }
    assert FERMAT_BASES[1] == 3 && FERMAT_BASES[2] == 5 && FERMAT_BASES[3] == 7;
  }

  lemma FermatForBase(n: int, b: nat)
    requires IsPrime(n) && n > 2 && (b == 2 || b == 3 || b == 5 || b == 7)
    ensures FermatAccepts(n, b) <==> n != b
  {
    if b == n {
      ModuloUnique(b, n, 1, 0);
      PowerIsMultiple(b, n - 1, n);
    } else {
      assert b % n != 0 by { if b % n == 0 { DivisorAtMost(b, n); } }
      FermatLittle(n, b);
    }
  }

  // ----- What the test does not tell -----

  /** A power that is 1 modulo three primes is 1 modulo their product. */
  lemma OneModuloAll(x: int, p: int, q: int, r: int)
    requires IsPrime(p) && IsPrime(q) && IsPrime(r) && p < q < r
    requires x % p == 1 && x % q == 1 && x % r == 1
    ensures x % (p * q * r) == 1
  {
    MinusOneModulo(p);
    MinusOneModulo(q);
    MinusOneModulo(r);
    ModDifference(x, 1, p);
    ModDifference(x, 1, q);
    ModDifference(x, 1, r);
    var y := x - 1;
    var u := y / p;
    assert y == p * u;
    SmallIsNotDivisible(q, p);
    EuclidsLemma(q, p, u);
    var v := u / q;
    assert u == q * v;
    assert y == p * (q * v) && p * (q * v) == (p * q) * v;
    SmallIsNotDivisible(r, p);
    SmallIsNotDivisible(r, q);
    if p * q % r == 0 { EuclidsLemma(r, p, q); }
    EuclidsLemma(r, p * q, v);
    var w := v / r;
    assert v == r * w;
    assert (p * q) * (r * w) == (p * q * r) * w;
    ProductAtLeast(2, 2, p, q);
    ProductAtLeast(4, 2, p * q, r);
    ModuloUnique(x, p * q * r, w, 1);
  }

  lemma OneModuloFactor(b: nat, p: int, f: nat, e: nat)
    requires IsPrime(p) && b % p != 0 && e == (p - 1) * f
    ensures Pow(b, e) % p == 1
  {
    FermatLittle(p, b);
    RootOfUnity(b, p - 1, f, p);
  }

  /** When p - 1, q - 1 and r - 1 all divide n - 1, the product n of p, q and r passes Fermat's test for every base
      that shares no factor with it. */
  lemma CarmichaelPasses(n: int, b: nat, p: int, q: int, r: int, f: nat, g: nat, h: nat)
    requires IsPrime(p) && IsPrime(q) && IsPrime(r) && p < q < r && n == p * q * r
    requires n - 1 == (p - 1) * f == (q - 1) * g == (r - 1) * h
    requires b % p != 0 && b % q != 0 && b % r != 0
    ensures n > 1 && FermatAccepts(n, b)
  {
    OneModuloFactor(b, p, f, n - 1);
    OneModuloFactor(b, q, g, n - 1);
    OneModuloFactor(b, r, h, n - 1);
    OneModuloAll(Pow(b, n - 1), p, q, r);
  }

  lemma FactorsArePrime()
    ensures IsPrime(13) && IsPrime(37) && IsPrime(61)
  {
    NoDivisorToRoot(13, 4);
    NoDivisorToRoot(37, 7);
    NoDivisorToRoot(61, 8);
  }

  /** 29341 = 13 * 37 * 61 is composite and passes Fermat's test for all four bases. */
  lemma FermatCanErr()
    ensures !IsPrime(29341) && FermatAcceptsAll(29341)
  {
    FactorsArePrime();
    forall i | 0 <= i < |FERMAT_BASES| ensures FermatAccepts(29341, FERMAT_BASES[i]) {
      var b := FERMAT_BASES[i];
      SmallIsNotDivisible(13, b);
      SmallIsNotDivisible(37, b);
      SmallIsNotDivisible(61, b);
      CarmichaelPasses(29341, b, 13, 37, 61, 2445, 815, 489);
    }
    assert 29341 % 13 == 0;
  }

  /** From two powers modulo m to the next. */
  lemma PowerOfSum(a: int, e: nat, f: nat, m: int, x: int, y: int, z: int)
    requires m > 0 && Pow(a, e) % m == x && Pow(a, f) % m == y && (x * y) % m == z
    ensures Pow(a, e + f) % m == z
  {
    PowAdd(a, e, f);
    ModMul(Pow(a, e), Pow(a, f), m);
  }

  lemma Cube(a: int)
    ensures Pow(a, 1) == a && Pow(a, 2) == a * a && Pow(a, 3) == a * a * a
  {
    assert Pow(a, 1) == a * Pow(a, 0) && Pow(a, 2) == a * Pow(a, 1) && Pow(a, 3) == a * Pow(a, 2);
  }

  lemma {:induction false} PowerOfMinusOne(x: int, f: nat, m: int)
    requires m > 1 && x % m == m - 1
    ensures Pow(x, f) % m == if f % 2 == 1 then m - 1 else 1
    decreases f
  {
    if f == 0 {
      MinusOneModulo(m);
    } else {
      PowerOfMinusOne(x, f - 1, m);
      ModMul(x, Pow(x, f - 1), m);
      TimesMinusOne(m);
    }
  }

  lemma TimesMinusOne(m: int)
    requires m > 1
    ensures ((m - 1) * 1) % m == m - 1 && ((m - 1) * (m - 1)) % m == 1
  {
    ModuloUnique(m - 1, m, 0, m - 1);
    assert (m - 1) * (m - 1) == m * (m - 2) + 1;
    ModuloUnique((m - 1) * (m - 1), m, m - 2, 1);
  }

  /** From a power that is -1 to its odd powers. */
  lemma MinusOneRaised(a: int, e: nat, f: nat, m: int)
    requires m > 1 && Pow(a, e) % m == m - 1 && f % 2 == 1
    ensures Pow(a, e * f) % m == m - 1
  {
    PowMul(a, e, f);
    PowerOfMinusOne(Pow(a, e), f, m);
  }

  lemma PowersOfTwo()
    ensures Pow(2, 14670) % 13 == 12 && Pow(2, 14670) % 37 == 36 && Pow(2, 14670) % 61 == 60
  {
    Cube(2);
    PowerOfSum(2, 3, 3, 13, 8, 8, 12);
    MinusOneRaised(2, 6, 2445, 13);
    EighteenthPower(2, 37, 8, 27, 26, 36);
    MinusOneRaised(2, 18, 815, 37);
    PowerOfSum(2, 3, 3, 61, 8, 8, 3);
    PowerOfSum(2, 6, 6, 61, 3, 3, 9);
    PowerOfSum(2, 6, 12, 61, 3, 9, 27);
    PowerOfSum(2, 12, 18, 61, 9, 27, 60);
    MinusOneRaised(2, 30, 489, 61);
  }

  lemma EighteenthPower(a: int, m: int, x: int, y: int, z: int, r: int)
    requires m > 0 && Pow(a, 3) % m == x && (x * x) % m == y && (y * y) % m == z && (y * z) % m == r
    ensures Pow(a, 18) % m == r
  {
    PowerOfSum(a, 3, 3, m, x, x, y);
    PowerOfSum(a, 6, 6, m, y, y, z);
    PowerOfSum(a, 6, 12, m, y, z, r);
  }

  lemma PowersOfThree()
    ensures Pow(3, 14670) % 13 == 1 && Pow(3, 14670) % 37 == 1 && Pow(3, 14670) % 61 == 1
  {
    Cube(3);
    RootOfUnity(3, 3, 4890, 13);
    EighteenthPower(3, 37, 27, 26, 10, 1);
    RootOfUnity(3, 18, 815, 37);
    PowerOfSum(3, 3, 3, 61, 27, 27, 58);
    PowerOfSum(3, 3, 6, 61, 27, 58, 41);
    PowerOfSum(3, 1, 9, 61, 3, 41, 1);
    RootOfUnity(3, 10, 1467, 61);
  }

  lemma SymbolsAt29341()
    ensures Jacobi(2, 29341) == -1 && Jacobi(3, 29341) == 1 && Jacobi(5, 29341) == 1
  {
    JacobiOfTwo(29341);
    SymbolOfTwo(29341);
    JacobiExchange(3, 29341);
    JacobiOfRemainder(29341, 1, 3);
    JacobiExchange(5, 29341);
    JacobiOfRemainder(29341, 1, 5);
    JacobiOfOne(3);
    JacobiOfOne(5);
  }

  lemma JacobiOfOne(p: nat)
    requires p == 3 || p == 5
    ensures Jacobi(1, p) == 1
  {
    assert IsPrime(3) && IsPrime(5);
    JacobiOfPrime(1, p);
    MinusOneModulo(p);
    assert IsSquareOf(1, p, 1);
  }

  lemma MinusOneModuloAll(x: int, p: int, q: int, r: int)
    requires IsPrime(p) && IsPrime(q) && IsPrime(r) && p < q < r
    requires x % p == p - 1 && x % q == q - 1 && x % r == r - 1
    ensures x % (p * q * r) == p * q * r - 1
  {
    ModuloUnique(-x, p, -(x / p) - 1, 1);
    ModuloUnique(-x, q, -(x / q) - 1, 1);
    ModuloUnique(-x, r, -(x / r) - 1, 1);
    OneModuloAll(-x, p, q, r);
    var m := p * q * r;
    ProductAtLeast(2, 2, p, q);
    ProductAtLeast(4, 2, p * q, r);
    ModuloUnique(x, m, -(-x / m) - 1, m - 1);
  }

  /** Euler's test accepts 29341 for the bases 2 and 3. */
  lemma EulerAccepts29341()
    ensures EulerAccepts(29341, 2) && EulerAccepts(29341, 3)
  {
    FactorsArePrime();
    SymbolsAt29341();
    PowersOfTwo();
    MinusOneModuloAll(Pow(2, 14670), 13, 37, 61);
    PowersOfThree();
    OneModuloAll(Pow(3, 14670), 13, 37, 61);
  }

  /** It rejects it for the base 5. */
  lemma EulerRejects29341()
    ensures !EulerAccepts(29341, 5)
  {
    SymbolsAt29341();
    Cube(5);
    MinusOneRaised(5, 2, 7335, 13);
    if Pow(5, 14670) % 29341 == 1 {
      ModuloUnique(Pow(5, 14670), 13, 2257 * (Pow(5, 14670) / 29341), 1);
    }
  }
}
