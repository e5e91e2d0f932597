/** Modular power, Miller-Rabin and the Jacobi loop (cpp/lib/BigPrime.h), with BigNumber as exact
    integers. */
module PrimeTests {
  import opened Masks
  import opened NumberTheory
  import opened Reciprocity
  import opened JacobiSymbol

  function Abs(x: int): (r: nat)
    ensures r == x || r == -x
  {
    if x < 0 then -x else x
  }

  /** BigInteger remainder: the sign of the dividend. */
  function Remainder(a: int, n: int): int
    requires n > 0
  {
    if a >= 0 then a % n else -(-a % n)
  }

  lemma RemainderIsCongruent(a: int, n: int)
    requires n > 0
    ensures Remainder(a, n) % n == a % n && -n < Remainder(a, n) < n
    ensures if a >= 0 then Remainder(a, n) >= 0 else Remainder(a, n) <= 0
  {
    if a >= 0 {
      ModuloUnique(a % n, n, 0, a % n);
    } else {
      var q := -a / n;
      assert -(-a % n) == a + n * q;
      ModShift(a, n, q);
    }
  }

  lemma RemainderIs(a: int, n: int, r: int)
    requires n > 0 && r % n == a % n && -n < r < n && if a >= 0 then r >= 0 else r <= 0
    ensures r == Remainder(a, n)
  {
    RemainderIsCongruent(a, n);
    if r >= 0 { ModuloUnique(r, n, 0, r); } else { ModuloUnique(r, n, -1, r + n); }
    var t := Remainder(a, n);
    if t >= 0 { ModuloUnique(t, n, 0, t); } else { ModuloUnique(t, n, -1, t + n); }
  }

  /** The exponent that the loop really applies.  The remainder of a negative odd number by 2 is -1, not 1, and the
      shift drops the sign, so a negative exponent loses its last bit and its sign. */
  function Exponent(e: int): (x: nat)
    ensures e >= 0 ==> x == e
    ensures e < 0 ==> x % 2 == 0 && -e - 1 <= x <= -e
  {
    if e >= 0 then e else 2 * (-e / 2)
  }

  /** What the loop keeps: r * base^exp is congruent to the power, and r has its sign once the first round is over. */
  ghost predicate PowerState(b: int, e: int, m: int, base: int, exp: int, r: int)
    requires m >= 1
  {
    && ((exp == e && r == 1 && base == Remainder(b, m)) ||
        (exp >= 0 && base >= 0 && if b < 0 && Exponent(e) % 2 == 1 then r <= 0 else r >= 0))
    && -m < r < m && (r * Pow(base, Exponent(exp))) % m == Pow(b, Exponent(e)) % m
  }

  /** Square-and-multiply with signed remainders. */
  method ModularPower(b: int, e: int, m: int) returns (r: int)
    requires m >= 1
    ensures r == Remainder(Pow(b, Exponent(e)), m)
    ensures b >= 0 && e >= 0 ==> r == Pow(b, e) % m
  {
    PowSign(b, Exponent(e));
    if m == 1 {
      RemainderIs(Pow(b, Exponent(e)), 1, 0);
      return 0;
    }
    r := 1;
    var base := Remainder(b, m);
    var exp := e;
    StartsCongruent(b, Exponent(e), m);
    while exp != 0
      invariant PowerState(b, e, m, base, exp, r)
      decreases Abs(exp)
    {
      PowerRound(b, e, m, base, exp, r);
      if Remainder(exp, 2) == 1 {
        r := Remainder(r * base, m);
      }
      exp := Abs(exp) / 2;
      base := Remainder(base * base, m);
    }
    PowerEnds(b, e, m, base, r);
  }

  lemma PowerRound(b: int, e: int, m: int, base: int, exp: int, r: int)
    requires m > 1 && exp != 0 && PowerState(b, e, m, base, exp, r)
    ensures Abs(exp) / 2 < Abs(exp)
    ensures PowerState(b, e, m, Remainder(base * base, m), Abs(exp) / 2,
                       if Remainder(exp, 2) == 1 then Remainder(r * base, m) else r)
  {
    PowerSplit(base, exp, m, r);
    SignStep(b, e, m, base, exp, r);
  }

  lemma PowerEnds(b: int, e: int, m: int, base: int, r: int)
    requires m > 1 && PowerState(b, e, m, base, 0, r)
    ensures r == Remainder(Pow(b, Exponent(e)), m)
  {
    assert r * Pow(base, 0) == r;
    PowSign(b, Exponent(e));
    assert e == 0 ==> Pow(b, Exponent(e)) == 1;
    RemainderIs(Pow(b, Exponent(e)), m, r);
  }

  lemma {:induction false} PowSign(b: int, e: nat)
    ensures if b < 0 && e % 2 == 1 then Pow(b, e) <= 0 else Pow(b, e) >= 0
    decreases e
  {
    if e > 0 {
      PowSign(b, e - 1);
      var p := Pow(b, e - 1);
      if b >= 0 {
        NonNegativeProduct(b, p);
      } else if p >= 0 {
        NonNegativeProduct(-b, p);
      } else {
        NonNegativeProduct(-b, -p);
      }
      ParityStep(e);
    }
  }

  lemma ParityStep(e: nat)
    requires e > 0
    ensures e % 2 == 1 <==> (e - 1) % 2 == 0
  {
  }

  lemma StartsCongruent(b: int, e: nat, m: int)
    requires m >= 1
    ensures (1 * Pow(Remainder(b, m), e)) % m == Pow(b, e) % m
  {
    RemainderIsCongruent(b, m);
    PowMod(b, e, m);
    PowMod(Remainder(b, m), e, m);
  }

  /** The first round fixes the sign of the result; after it, the base is not negative. */
  lemma SignStep(b: int, e: int, m: int, base: int, exp: int, r: int)
    requires m > 1 && exp != 0
    requires (exp == e && r == 1 && base == Remainder(b, m)) ||
             (exp >= 0 && base >= 0 && if b < 0 && Exponent(e) % 2 == 1 then r <= 0 else r >= 0)
    requires -m < r < m
    ensures Abs(exp) / 2 < Abs(exp) && Remainder(base * base, m) >= 0
    ensures var r' := if Remainder(exp, 2) == 1 then Remainder(r * base, m) else r;
            -m < r' < m && if b < 0 && Exponent(e) % 2 == 1 then r' <= 0 else r' >= 0
  {
    RemainderIsCongruent(b, m);
    SignOfProduct(r, base);
    SignOfProduct(base, base);
    var product, square := r * base, base * base;
    RemainderIsCongruent(product, m);
    RemainderIsCongruent(square, m);
  }

  lemma SignOfProduct(x: int, y: int)
    ensures x >= 0 && y >= 0 ==> x * y >= 0
    ensures x <= 0 && y >= 0 ==> x * y <= 0
    ensures x == y ==> x * y >= 0
    ensures x == 1 ==> x * y == y
  {
    if x >= 0 && y >= 0 { NonNegativeProduct(x, y); }
    if x <= 0 && y >= 0 { NonNegativeProduct(-x, y); }
    if x == y && x < 0 { NonNegativeProduct(-x, -y); }
  }

  /** One round keeps the value of r * base^exp modulo m. */
  lemma PowerSplit(base: int, exp: int, m: int, r: int)
    requires exp != 0 && m >= 1
    ensures var r' := if Remainder(exp, 2) == 1 then Remainder(r * base, m) else r;
            (r' * Pow(Remainder(base * base, m), Abs(exp) / 2)) % m == (r * Pow(base, Exponent(exp))) % m
  {
    var half := Abs(exp) / 2;
    var square := Pow(base * base, half);
    assert Pow(base, 2) == base * base by {
      assert Pow(base, 2) == base * Pow(base, 1) && Pow(base, 1) == base * Pow(base, 0);
    }
    PowMul(base, 2, half);
    assert Pow(base, 2 * half) == square;
    StartsCongruent(base * base, half, m);
    var reduced := Pow(Remainder(base * base, m), half);
    if Remainder(exp, 2) == 1 {
      assert exp == 2 * half + 1;
      assert Pow(base, exp) == base * square;
      RemainderIsCongruent(r * base, m);
      CongruentFactor(reduced, Remainder(r * base, m), r * base, m);
      CongruentFactor(r * base, reduced, square, m);
      assert (r * base) * square == r * (base * square);
      assert Remainder(r * base, m) * reduced == reduced * Remainder(r * base, m);
      assert (r * base) * reduced == reduced * (r * base);
    } else {
      assert Exponent(exp) == 2 * half;
      CongruentFactor(r, reduced, square, m);
    }
  }

  lemma CongruentFactor(a: int, x: int, y: int, m: int)
    requires m > 0 && x % m == y % m
    ensures (a * x) % m == (a * y) % m
  {
    ModMul(x, a, m);
    ModMul(y, a, m);
    assert a * x == x * a && a * y == y * a;
  }

  // ----- Miller-Rabin -----

  const SMALL_BASES: seq<int> := [2, 3, 5, 7, 11, 13, 17, 19, 23, 29, 31, 37, 41, 43, 47]

  /** The base of round i. */
  function Base(n: int, i: nat): (a: int)
    requires n > 3
    ensures 2 <= a < n
  {
    var a := if i < |SMALL_BASES| then SMALL_BASES[i] else 2 + i % 100;
    if a >= n then 2 else a
  }

  /** d * 2^j. */
  function Doubled(d: nat, j: nat): nat {
    if j == 0 then d else 2 * Doubled(d, j - 1)
  }

  lemma {:induction false} DoubledFromInside(d: nat, j: nat)
    ensures Doubled(2 * d, j) == Doubled(d, j + 1)
    decreases j
  {
    if j > 0 { DoubledFromInside(d, j - 1); }
  }

  /** n - 1 = d * 2^r with d odd. */
  ghost predicate Splits(n: int, d: nat, r: nat) {
    d % 2 == 1 && n - 1 == Doubled(d, r)
  }

  lemma {:induction false} SplitIsUnique(d: nat, r: nat, d': nat, r': nat)
    requires d % 2 == 1 && d' % 2 == 1 && Doubled(d, r) == Doubled(d', r')
    ensures d == d' && r == r'
    decreases r
  {
    if r > 0 && r' > 0 { SplitIsUnique(d, r - 1, d', r' - 1); }
  }

  lemma {:induction false} SplitExists(m: nat) returns (d: nat, r: nat)
    requires m > 0
    ensures Splits(m + 1, d, r)
    decreases m
  {
    if m % 2 == 1 {
      d, r := m, 0;
    } else {
      d, r := SplitExists(m / 2);
      r := r + 1;
    }
  }

  ghost predicate IsMinusOne(n: int, a: int, d: nat, j: nat)
    requires n > 0
  {
    Pow(a, Doubled(d, j)) % n == n - 1
  }

  /** n is a strong probable prime to base a: a^d is 1, or some a^(d 2^j) is -1. */
  ghost predicate StrongProbablePrime(n: int, a: int, d: nat, r: nat)
    requires n > 0
  {
    Pow(a, d) % n == 1 || exists j: nat :: j < r && IsMinusOne(n, a, d, j)
  }

  ghost predicate AllBasesAccept(n: int, k: int, d: nat, r: nat)
    requires n > 3
  {
    Splits(n, d, r) && forall i: nat | i < k :: StrongProbablePrime(n, Base(n, i), d, r)
  }

  /** The answer of the test, as a property of n: the first k bases all accept it. */
  ghost predicate PassesMillerRabin(n: int, k: int) {
    n == 2 || n == 3 || (n > 3 && n % 2 == 1 && exists d: nat, r: nat :: AllBasesAccept(n, k, d, r))
  }

  method IsPrimeMR(n: int, k: int) returns (result: bool)
    ensures result <==> PassesMillerRabin(n, k)
    ensures IsPrime(n) ==> result
    ensures n < ExactBelow(k) || SharesBase(n, k) ==> (result <==> IsPrime(n))
  {
    if n < ExactBelow(k) || SharesBase(n, k) { TestIsExact(n, k); }
    if n < 2 { return false; }
    if n == 2 || n == 3 { return true; }
    if n % 2 == 0 {
      return false;
    }
    var nMinus1 := n - 1;
    var d, r := nMinus1, 0;
    while d % 2 == 0
      invariant d > 0 && r >= 0 && Doubled(d, r) == nMinus1
      decreases d
    {
      DoubledFromInside(d / 2, r);
      r := r + 1;
      d := d / 2;
    }
    var i := 0;
    while i < k
      invariant i >= 0 && (k >= 0 ==> i <= k)
      invariant forall j: nat | j < i :: StrongProbablePrime(n, Base(n, j), d, r)
    {
      var a := if i < |SMALL_BASES| then SMALL_BASES[i] else 2 + i % 100;
      if a >= n { a := 2; }
      var accepted := Round(n, a, d, r);
      if !accepted {
        Rejected(n, k, d, r, i);
        return false;
      }
      i := i + 1;
    }
    assert AllBasesAccept(n, k, d, r);
    result := true;
  }

  /** One round: the power, then up to r - 1 squarings. */
  method Round(n: int, a: int, d: nat, r: nat) returns (accepted: bool)
    requires n > 3 && n % 2 == 1 && a >= 0 && Splits(n, d, r)
    ensures accepted <==> StrongProbablePrime(n, a, d, r)
  {
    var x := ModularPower(a, d, n);
    if x == 1 || x == n - 1 {
      assert x == n - 1 ==> IsMinusOne(n, a, d, 0);
      return true;
    }
    accepted := false;
    var j := 0;
    while j < r - 1
      invariant 0 <= j <= r - 1 && x >= 0
      invariant x == Pow(a, Doubled(d, j)) % n
      invariant forall i: nat | i <= j :: !IsMinusOne(n, a, d, i)
    {
      SquareStep(n, a, d, j);
      x := ModularPower(x, 2, n);
      j := j + 1;
      if x == n - 1 {
        assert IsMinusOne(n, a, d, j);
        return true;
      }
    }
  }

  /** Squaring a^(d 2^j) gives a^(d 2^(j+1)). */
  lemma SquareStep(n: int, a: int, d: nat, j: nat)
    requires n > 0
    ensures Pow(Pow(a, Doubled(d, j)) % n, 2) % n == Pow(a, Doubled(d, j + 1)) % n
  {
    var e := Doubled(d, j);
    PowMod(Pow(a, e), 2, n);
    PowMul(a, e, 2);
    assert e * 2 == Doubled(d, j + 1);
  }

  /** A rejecting round settles the answer: the split is unique, and a prime is never rejected. */
  lemma Rejected(n: int, k: int, d: nat, r: nat, i: nat)
    requires n > 3 && n % 2 == 1 && Splits(n, d, r) && i < k
    requires !StrongProbablePrime(n, Base(n, i), d, r)
    ensures !PassesMillerRabin(n, k) && !IsPrime(n)
  {
    if PassesMillerRabin(n, k) {
      var d': nat, r': nat :| AllBasesAccept(n, k, d', r');
      SplitIsUnique(d, r, d', r');
    }
    if IsPrime(n) {
      PrimeIsStrong(n, Base(n, i), d, r);
    }
  }

  lemma {:induction false} LastNonOne(n: int, a: int, d: nat, j: nat)
    requires IsPrime(n) && Pow(a, d) % n != 1 && Pow(a, Doubled(d, j)) % n == 1
    ensures exists i: nat :: i < j && IsMinusOne(n, a, d, i)
    decreases j
  {
    if j > 0 {
      var x := Pow(a, Doubled(d, j - 1)) % n;
      SquareStep(n, a, d, j - 1);
      assert Pow(x, 2) == x * x by { assert Pow(x, 2) == x * Pow(x, 1) && Pow(x, 1) == x * Pow(x, 0); }
      SquareRootsOfOne(n, x);
      if x == n - 1 {
        assert IsMinusOne(n, a, d, j - 1);
      } else {
        LastNonOne(n, a, d, j - 1);
      }
    }
  }

  /** A prime is a strong probable prime to every base it does not divide: going down from
      a^(n-1) = 1, the first power that is not 1 is a square root of 1, hence -1. */
  lemma PrimeIsStrong(n: int, a: int, d: nat, r: nat)
    requires IsPrime(n) && 0 < a < n && Splits(n, d, r)
    ensures StrongProbablePrime(n, a, d, r)
  {
    ModuloUnique(a, n, 0, a);
    FermatLittle(n, a);
    if Pow(a, d) % n != 1 {
      LastNonOne(n, a, d, r);
    }
  }

  /** No base in the list, in any number of rounds, rejects a prime. */
  lemma PrimesPassMillerRabin(n: int, k: int)
    requires IsPrime(n)
    ensures PassesMillerRabin(n, k)
  {
    if n > 3 {
      var d, r := SplitExists(n - 1);
      assert n % 2 != 0;
      forall i: nat | i < k ensures StrongProbablePrime(n, Base(n, i), d, r) {
        PrimeIsStrong(n, Base(n, i), d, r);
      }
      assert AllBasesAccept(n, k, d, r);
    }
  }

  // ----- When the answer is exact -----

  /** n shares a factor with one of the first k bases.  A caller can find out by division. */
  ghost predicate SharesBase(n: int, k: int) {
    n > 3 && exists i: nat, g: int :: i < k && g > 1 && CommonDivisor(g, Base(n, i), n)
  }

  /** A prime that the first k bases leave out: up to 15 rounds, the one after the first k primes. */
  function NextPrime(k: int): (p: nat)
    ensures p >= 2
  {
    if k >= 100 then 103 else if k >= 15 then 53 else if k >= 14 then 47 else if k >= 13 then 43
    else if k >= 12 then 41 else if k >= 11 then 37 else if k >= 10 then 31 else if k >= 9 then 29
    else if k >= 8 then 23 else if k >= 7 then 19 else if k >= 6 then 17 else if k >= 5 then 13
    else if k >= 4 then 11 else if k >= 3 then 7 else if k >= 2 then 5 else if k >= 1 then 3 else 2
  }

  /** Below this bound every composite number shares a factor with one of the first k bases. */
  function ExactBelow(k: int): nat {
    NextPrime(k) * NextPrime(k)
  }

  lemma PowerIsMultiple(a: int, e: nat, g: int)
    requires g > 0 && e > 0 && a % g == 0
    ensures Pow(a, e) % g == 0
  {
    DivisorOfProduct(a, Pow(a, e - 1), g);
  }

  /** Modulo n, a power of a multiple of a factor of n stays a multiple of it, so it is neither 1 nor -1. */
  lemma PowerKeepsFactor(n: int, a: int, e: nat, g: int)
    requires n > 1 && e > 0 && g > 1 && CommonDivisor(g, a, n)
    ensures Pow(a, e) % n != 1 && Pow(a, e) % n != n - 1
  {
    var p := Pow(a, e);
    var x := p % n;
    PowerIsMultiple(a, e, g);
    DivisorOfProduct(n, p / n, g);
    assert p == n * (p / n) + x;
    DivisorOfSum(n * (p / n), x, g);
    ModuloUnique(1, g, 0, 1);
    ModuloUnique(-1, g, -1, g - 1);
    DivisorOfSum(n, -1, g);
  }

  lemma {:induction false} DoubledIsPositive(d: nat, j: nat)
    requires d > 0
    ensures Doubled(d, j) > 0
    decreases j
  {
    if j > 0 { DoubledIsPositive(d, j - 1); }
  }

  /** A base that shares a factor with n rejects n. */
  lemma CommonFactorRejects(n: int, a: int, d: nat, r: nat, g: int)
    requires n > 1 && d > 0 && g > 1 && CommonDivisor(g, a, n)
    ensures !StrongProbablePrime(n, a, d, r)
  {
    PowerKeepsFactor(n, a, d, g);
    forall j: nat | j < r ensures !IsMinusOne(n, a, d, j) {
      DoubledIsPositive(d, j);
      PowerKeepsFactor(n, a, Doubled(d, j), g);
    }
  }

  /** Such a number is composite and is rejected. */
  lemma SharedBaseIsRejected(n: int, k: int)
    requires SharesBase(n, k)
    ensures !PassesMillerRabin(n, k) && !IsPrime(n)
  {
    var i: nat, g: int :| i < k && g > 1 && CommonDivisor(g, Base(n, i), n);
    DivisorAtMost(Base(n, i), g);
    if PassesMillerRabin(n, k) {
      var d: nat, r: nat :| AllBasesAccept(n, k, d, r);
      CommonFactorRejects(n, Base(n, i), d, r, g);
    }
  }

  /** The round in which a prime below 103 is the base, when it is one of the first k. */
  lemma RoundOf(p: int, k: int) returns (i: nat)
    requires IsPrime(p) && p * p < ExactBelow(k)
    ensures i < k && (if i < |SMALL_BASES| then SMALL_BASES[i] else 2 + i % 100) == p
  {
    PrimeBelow(p, NextPrime(k));
    ProductAtLeast(2, 2, p, p);
    if p >= 17 && k >= 100 {
      assert p % 2 != 0;
      i := p - 2;
    } else {
      i := ListedAt(p, k);
    }
  }

  lemma PrimeBelow(p: int, bound: int)
    requires p >= 2 && bound >= 2 && p * p < bound * bound
    ensures p < bound
  {
    if p >= bound { ProductAtLeast(bound, bound, p, p); }
  }

  /** The position of a prime in the list of bases. */
  lemma ListedAt(p: int, k: int) returns (i: nat)
    requires IsPrime(p) && p < 53 && p < NextPrime(k)
    ensures i < |SMALL_BASES| && SMALL_BASES[i] == p && i < k
  {
    i := Listed(p);
  }

  lemma Listed(p: int) returns (i: nat)
    requires IsPrime(p) && p < 53
    ensures i < |SMALL_BASES| && SMALL_BASES[i] == p
  {
    assert p > 2 ==> p % 2 != 0;
    assert p > 3 ==> p % 3 != 0;
    assert p > 5 ==> p % 5 != 0;
    assert p > 7 ==> p % 7 != 0;
    i := if p == 2 then 0 else if p == 3 then 1 else if p == 5 then 2 else if p == 7 then 3 else if p == 11 then 4
         else if p == 13 then 5 else if p == 17 then 6 else if p == 19 then 7 else if p == 23 then 8
         else if p == 29 then 9 else if p == 31 then 10 else if p == 37 then 11 else if p == 41 then 12
         else if p == 43 then 13 else 14;
  }

  lemma BaseIsPrime(i: nat)
    requires i < |SMALL_BASES|
    ensures IsPrime(SMALL_BASES[i]) && SMALL_BASES[i] < 53
    ensures forall j | 0 <= j < i :: SMALL_BASES[j] < SMALL_BASES[i]
  {
    var p := SMALL_BASES[i];
    if p >= 8 { NoDivisorToRoot(p, 8); }
  }

  /** Up to 15 rounds, the first k bases are the primes below NextPrime(k), which is a prime itself. */
  lemma FirstBases(k: nat)
    requires k <= |SMALL_BASES|
    ensures |SMALL_BASES| == 15 && IsPrime(NextPrime(k))
    ensures forall p :: p in SMALL_BASES[..k] <==> IsPrime(p) && p < NextPrime(k)
  {
    if k < |SMALL_BASES| { BaseIsPrime(k); } else { NoDivisorToRoot(53, 8); }
    forall p ensures p in SMALL_BASES[..k] <==> IsPrime(p) && p < NextPrime(k) {
      if p in SMALL_BASES[..k] {
        var i: nat :| i < k && SMALL_BASES[i] == p;
        BaseIsPrime(i);
      }
      if IsPrime(p) && p < NextPrime(k) {
        var i := ListedAt(p, k);
        assert SMALL_BASES[..k][i] == p;
      }
    }
  }

  /** A composite number below the bound has its least divisor among the bases. */
  lemma SmallCompositeSharesBase(n: int, k: int)
    requires 3 < n < ExactBelow(k) && !IsPrime(n)
    ensures SharesBase(n, k)
  {
    var p := LeastDivisorExists(n);
    LeastDivisorBelowRoot(n, p);
    var i := RoundOf(p, k);
    assert Base(n, i) == p;
    ModuloUnique(p, p, 1, 0);
    assert CommonDivisor(p, Base(n, i), n);
  }

  /** The test is exact for every n that shares a factor with one of the first k bases and, up to 15 rounds, for every
      n below the square of the prime after the first k; that is 961 for 10 rounds, 2809 for 15, 10609 from 100 on. */
  lemma TestIsExact(n: int, k: int)
    requires n < ExactBelow(k) || SharesBase(n, k)
    ensures PassesMillerRabin(n, k) <==> IsPrime(n)
  {
    if SharesBase(n, k) {
      SharedBaseIsRejected(n, k);
    } else if IsPrime(n) {
      PrimesPassMillerRabin(n, k);
    } else if n > 3 {
      SmallCompositeSharesBase(n, k);
    } else {
      assert IsPrime(2) && IsPrime(3);
    }
  }

  lemma PowerOfTwoEleven()
    ensures Pow(2, 11) == 2048
  {
    var two := 2;
    assert Pow(two, 3) == 8 by { assert Pow(two, 1) == two * Pow(two, 0) && Pow(two, 2) == two * Pow(two, 1); }
    PowAdd(two, 3, 8);
    PowAdd(two, 4, 4);
    PowAdd(two, 3, 1);
    assert Pow(two, 4) == 16 && Pow(two, 8) == 256;
  }

  lemma PowerAt2047()
    ensures Pow(2, 1023) % 2047 == 1
  {
    PowerOfTwoEleven();
    RootOfUnity(2, 11, 93, 2047);
  }

  lemma RootOfUnity(a: int, e: nat, f: nat, m: int)
    requires m > 1 && Pow(a, e) % m == 1
    ensures Pow(a, e * f) % m == 1
  {
    PowMul(a, e, f);
    PowMod(Pow(a, e), f, m);
    PowerOfOne(f);
    ModuloUnique(1, m, 0, 1);
  }

  /** Beyond that the converse can fail: 2047 = 23 * 89 shares no factor with base 2, and passes one round. */
  lemma MillerRabinCanErr()
    ensures !IsPrime(2047) && PassesMillerRabin(2047, 1)
  {
    assert 2047 % 23 == 0;
    PowerAt2047();
    assert Base(2047, 0) == 2;
    assert Doubled(1023, 1) == 2 * Doubled(1023, 0);
    assert AllBasesAccept(2047, 1, 1023, 1);
  }

  // ----- The Jacobi loop -----

  lemma NormalizedRemainder(a: int, n: int)
    requires n > 0
    ensures Remainder(Remainder(a, n) + n, n) == a % n
  {
    if a < 0 {
      var q, r := -a / n, -a % n;
      assert a == n * -q - r by { assert -a == n * q + r; }
      if r == 0 {
        ModuloUnique(a, n, -q, 0);
        ModuloUnique(n, n, 1, 0);
      } else {
        assert a == n * (-q - 1) + (n - r);
        ModuloUnique(a, n, -q - 1, n - r);
        ModuloUnique(n - r, n, 0, n - r);
      }
    } else {
      ModuloUnique(a % n + n, n, 1, a % n);
    }
  }

  /** The Jacobi symbol: for an odd prime n it tells squares modulo n from other numbers, for an odd product of primes
      it is the product of their symbols, and it is 0 exactly when a and n share a factor. */
  method JacobiBig(a: int, n: int) returns (result: int)
    ensures n > 0 && n % 2 == 1 ==> result == Jacobi(a, n)
    ensures n > 0 && n % 2 == 1 ==> (result == 0 <==> !Coprime(a, n))
    ensures n <= 0 || n % 2 == 0 ==> result == 0
  {
    if n <= 0 || n % 2 == 0 { return 0; }
    var aMod := Remainder(Remainder(a, n) + n, n);
    NormalizedRemainder(a, n);
    ModuloUnique(aMod, n, 0, aMod);
    JacobiOfRemainder(a, aMod, n);
    JacobiVanishes(a, n);
    var nCopy := n;
    var r := 1;
    while aMod != 0
      invariant 0 <= aMod && nCopy > 0 && nCopy % 2 == 1 && (r == 1 || r == -1)
      invariant aMod < nCopy && Signed(Jacobi(aMod, nCopy), r == -1) == Jacobi(a, n)
      decreases nCopy
    {
      while aMod % 2 == 0
        invariant 0 < aMod < nCopy && (r == 1 || r == -1)
        invariant Signed(Jacobi(aMod, nCopy), r == -1) == Jacobi(a, n)
        decreases aMod
      {
        JacobiHalves(aMod, nCopy);
        aMod := aMod / 2;
        var nMod8 := nCopy % 8;
        if nMod8 == 3 || nMod8 == 5 { r := -r; }
      }
      JacobiExchange(aMod, nCopy);
      var temp := aMod;
      aMod := nCopy;
      nCopy := temp;
      if aMod % 4 == 3 && nCopy % 4 == 3 { r := -r; }
      ModuloUnique(aMod % nCopy, nCopy, 0, aMod % nCopy);
      JacobiOfRemainder(aMod, aMod % nCopy, nCopy);
      aMod := aMod % nCopy;
    }
    JacobiOfZero(nCopy);
    result := if nCopy == 1 then r else 0;
  }
}
