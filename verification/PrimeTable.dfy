/** The sieve, the table of small primes and trial division (cpp/lib/BigPrime.h). */
module PrimeTable {
  import opened Masks
  import opened NumberTheory
  import opened JacobiSymbol
  import opened ReciprocityTest

  datatype Option<T> = None | Some(value: T)

  ghost predicate Increasing(s: seq<int>) {
    forall i, j | 0 <= i < j < |s| :: s[i] < s[j]
  }

  /** Exactly the primes up to lim, in order. */
  ghost predicate PrimesUpTo(s: seq<int>, lim: int) {
    Increasing(s) && forall p :: p in s <==> IsPrime(p) && p <= lim
  }

  /** x has no divisor d with 2 <= d < hi other than itself. */
  ghost predicate Unmarked(x: int, hi: int) {
    forall d | 2 <= d < hi && d < x :: x % d != 0
  }

  /** Striking out the multiples of i from i * i on is enough: smaller multiples have smaller divisors. */
  lemma StrikeOut(x: int, i: int)
    requires x >= 2 && i >= 2
    ensures Unmarked(x, i + 1) <==> Unmarked(x, i) && !(x >= i * i && x % i == 0)
  {
    if x % i == 0 && i < x {
      var q := Cofactor(x, i);
      if q < i {
        assert !Unmarked(x, i);
      } else {
        ProductAtLeast(i, i, i, q);
      }
    }
    if x <= i && x >= i * i {
      MultipleAtLeast(i, i);
      assert i * i >= 2 * i by { ProductAtLeast(2, i, i, i); }
    }
  }

  /** Multiples of a composite number were struck out with its divisor. */
  lemma CompositeStrikesNothing(x: int, i: int)
    requires x >= 2 && i >= 2 && !Unmarked(i, i)
    ensures Unmarked(x, i + 1) <==> Unmarked(x, i)
  {
    if i < x && x % i == 0 {
      var d :| 2 <= d < i && i % d == 0;
      DivisorsCompose(x, i, d);
    }
  }

  lemma UnmarkedToRootIsPrime(x: int, lim: int, root: nat)
    requires 2 <= x <= lim && lim < (root + 1) * (root + 1)
    ensures Unmarked(x, root + 1) <==> IsPrime(x)
  {
    if Unmarked(x, root + 1) {
      if x > root {
        NoDivisorToRoot(x, root + 1);
      }
    }
  }

  method Sieve(lim: int) returns (primes: seq<int>)
    requires lim >= 1
    ensures PrimesUpTo(primes, lim)
  {
    var s := new bool[lim + 1](_ => true);
    s[0], s[1] := false, false;
    var sqrtLim := FloorSqrt(lim);
    BelowFloorSqrt(lim, 1);
    var i := 2;
    while i <= sqrtLim
      invariant 2 <= i <= sqrtLim + 1
      invariant forall x | 2 <= x <= lim :: s[x] <==> Unmarked(x, i)
    {
      BelowFloorSqrt(lim, i);
      MultipleAtLeast(i, i);
      if s[i] {
        StrikeMultiples(s, lim, i);
      } else {
        forall x | 2 <= x <= lim ensures Unmarked(x, i + 1) <==> Unmarked(x, i) {
          CompositeStrikesNothing(x, i);
        }
      }
      i := i + 1;
    }
    forall x | 2 <= x <= lim ensures s[x] <==> IsPrime(x) {
      UnmarkedToRootIsPrime(x, lim, sqrtLim);
    }
    primes := Collect(s, lim);
  }

  /** The second loop: the numbers left standing, in order. */
  method Collect(s: array<bool>, lim: int) returns (primes: seq<int>)
    requires lim >= 1 && s.Length == lim + 1
    requires forall x | 2 <= x <= lim :: s[x] <==> IsPrime(x)
    ensures PrimesUpTo(primes, lim)
  {
    primes := [];
    var i := 2;
    while i <= lim
      invariant 2 <= i <= lim + 1
      invariant PrimesUpTo(primes, i - 1)
    {
      NextPrime(primes, i);
      if s[i] {
        primes := primes + [i];
      }
      i := i + 1;
    }
  }

  lemma NextPrime(primes: seq<int>, i: int)
    requires PrimesUpTo(primes, i - 1)
    ensures PrimesUpTo(if IsPrime(i) then primes + [i] else primes, i)
  {
    var more := primes + [i];
    assert forall p :: p in more <==> p in primes || p == i;
    forall j | 0 <= j < |primes| ensures primes[j] < i {
      assert primes[j] in primes;
    }
  }

  /** The inner loop for a prime i. */
  method StrikeMultiples(s: array<bool>, lim: int, i: int)
    requires s.Length == lim + 1 && 2 <= i && i * i <= lim
    requires forall x | 2 <= x <= lim :: s[x] <==> Unmarked(x, i)
    modifies s
    ensures forall x | 2 <= x <= lim :: s[x] <==> Unmarked(x, i + 1)
  {
    MultipleIsDivisible(i, i);
    MultipleAtLeast(i, i);
    var j := i * i;
    while j <= lim
      invariant i * i <= j && j % i == 0
      invariant forall x | 2 <= x <= lim :: s[x] <==> Unmarked(x, i) && !(i * i <= x < j && x % i == 0)
      decreases lim - j
    {
      s[j] := false;
      forall x | j < x < j + i ensures x % i != 0 {
        BetweenMultiples(i, j, x);
      }
      ModShift(j, i, 1);
      j := j + i;
    }
    forall x | 2 <= x <= lim ensures s[x] <==> Unmarked(x, i + 1) {
      StrikeOut(x, i);
    }
  }

  lemma BetweenMultiples(i: int, j: int, x: int)
    requires i > 0 && j % i == 0 && j < x < j + i
    ensures x % i != 0
  {
    ModuloUnique(x, i, j / i, x - j);
  }

  // ----- The table and the tests that use it -----

  /** The first primes without gaps: all primes up to the last entry. */
  ghost predicate IsPrimeTable(t: seq<int>) {
    t != [] ==> PrimesUpTo(t, t[|t| - 1])
  }

  lemma PrefixIsTable(t: seq<int>, lim: int, k: nat)
    requires PrimesUpTo(t, lim) && k <= |t|
    ensures IsPrimeTable(t[..k])
  {
    if k > 0 {
      var u, last := t[..k], t[k - 1];
      forall p ensures p in u <==> IsPrime(p) && p <= last {
        if IsPrime(p) && p <= last {
          assert p <= lim by { assert last in t; }
          var j :| 0 <= j < |t| && t[j] == p;
          assert u[j] == p;
        }
        if p in u {
          var j :| 0 <= j < k && u[j] == p;
          assert p in t && t[j] == p;
        }
      }
    }
  }

  /** The module-level variables primeBase and maxPrime, and the functions that use them. */
  class Primality {
    var primeBase: seq<int>
    var maxPrime: int

    ghost predicate Valid()
      reads this
    {
      IsPrimeTable(primeBase) && maxPrime == if primeBase == [] then 0 else primeBase[|primeBase| - 1]
    }

    constructor ()
      ensures Valid() && primeBase == []
    {
      primeBase, maxPrime := [], 0;
    }

    method InitPrimality(sz: int)
      requires sz >= 1
      modifies this
      ensures Valid() && 0 < |primeBase| <= sz
      ensures (forall p | p in primeBase :: p <= sz * 10) && (|primeBase| < sz ==> PrimesUpTo(primeBase, sz * 10))
      ensures sz >= 2 ==> |primeBase| >= 2
    {
      var all := Sieve(sz * 10);
      SmallPrimes();
      ghost var x, y :| 0 <= x < |all| && 0 <= y < |all| && all[x] == 2 && all[y] == 3;
      primeBase := all;
      if |primeBase| > sz {
        PrefixIsTable(all, sz * 10, sz);
        primeBase := primeBase[..sz];
      } else {
        PrefixIsTable(all, sz * 10, |all|);
        assert all[..|all|] == all;
      }
      if primeBase != [] {
        maxPrime := primeBase[|primeBase| - 1];
      }
    }

    /** The table part of the scan of an odd n: the least divisor if the table holds it; otherwise
        either the whole table was tried, or n was seen to be a prime below the square of an entry. */
    method ScanTable(n: int) returns (found: Option<int>, ghost complete: bool)
      requires Valid() && n >= 3 && n % 2 == 1
      ensures found.Some? ==> found.value in primeBase && IsLeastDivisor(n, found.value)
      ensures found.None? && complete && primeBase != [] ==> NoDivisorBelow(n, Last(primeBase) + 1)
      ensures found.None? && !complete ==> IsPrime(n) && primeBase != [] && FloorSqrt(n) < Last(primeBase)
    {
      var i := 0;
      while i < |primeBase|
        invariant 0 <= i <= |primeBase|
        invariant i > 0 ==> NoDivisorBelow(n, primeBase[i - 1] + 1)
      {
        var p := primeBase[i];
        GapHasNoDivisor(primeBase, n, i);
        if n % p == 0 {
          DivisorAtMost(n, p);
          return Some(p), true;
        }
        var pSquared := p * p;
        if pSquared > n {
          NoDivisorToRoot(n, p);
          BelowFloorSqrt(n, p);
          return None, false;
        }
        i := i + 1;
      }
      return None, true;
    }

    /** The least divisor of n above 1, or 0 below 2. A table of one entry makes the scan start at 5,
        so 3 is never tried; the answer is then wrong exactly for the odd multiples of 3 above 3. */
    method FirstFactor(n: int) returns (r: int)
      requires Valid()
      ensures n < 2 ==> r == 0
      ensures n >= 2 ==> (IsLeastDivisor(n, r) <==> |primeBase| != 1 || n % 2 == 0 || n % 3 != 0 || n == 3)
      ensures |primeBase| == 1 && SkipsThree(n) ==> ScanOutcome(n, 5, r)
    {
      if n < 2 { return 0; }
      if n % 2 == 0 { return 2; }
      ghost var complete;
      var found;
      found, complete := ScanTable(n);
      if found.Some? {
        EvenEntry(primeBase, n, found.value);
        return found.value;
      }
      ghost var start;
      r, start := ScanBeyond(n);
      AfterTable(primeBase, n, complete, start, r);
    }

    /** The odd scan, from behind the table. */
    method ScanBeyond(n: int) returns (r: int, ghost first: int)
      requires Valid() && n >= 3
      ensures first == if |primeBase| == 0 then 3 else if |primeBase| == 1 then 5 else Last(primeBase) + 2
      ensures ScanOutcome(n, first, r)
    {
      var start := if primeBase == [] then 3 else Last(primeBase) + 2;
      TableEndsOdd(primeBase);
      if start % 2 == 0 { start := start + 1; }
      first := start;
      r := ScanOdd(n, start);
    }

    method IsPrimeTD(n: int) returns (result: bool)
      requires Valid()
      ensures (result <==> IsPrime(n)) <==> !(|primeBase| == 1 && SkipsThree(n) && (n == 27 || IsPrime(n / 3)))
    {
      if n < 2 { return false; }
      if n == 2 { return true; }
      if n % 2 == 0 { return false; }
      var f := FirstFactor(n);
      result := f == n;
      PrimeIffOwnLeastDivisor(n);
      if |primeBase| == 1 && SkipsThree(n) { ScanFromFive(n, f); }
    }

    /** isPrimeQR up to and including its trial division: a definite answer, or None when the later
        stages decide. Every n below the square of the largest table entry is decided here. */
    method IsPrimeQRTrialStage(n: int) returns (result: Option<bool>)
      requires Valid()
      ensures result.Some? ==> (result.value <==> IsPrime(n))
      ensures result.None? <==>
                n >= 3 && n % 2 == 1 && n >= maxPrime * maxPrime && NoDivisorBelow(n, maxPrime + 1)
    {
      if n < 2 { return Some(false); }
      if n == 2 { return Some(true); }
      if n % 2 == 0 { return Some(false); }
      var i := 0;
      while i < |primeBase| && primeBase[i] * primeBase[i] <= n
        invariant 0 <= i <= |primeBase|
        invariant i > 0 ==> NoDivisorBelow(n, primeBase[i - 1] + 1)
      {
        var p := primeBase[i];
        GapHasNoDivisor(primeBase, n, i);
        if n % p == 0 {
          ProductAtLeast(2, p, p, p);
          EntryAtMostLast(primeBase, i);
          return Some(false);
        }
        i := i + 1;
      }
      if maxPrime != 0 && maxPrime != 1 {
        var mpSquared := maxPrime * maxPrime;
        if n < mpSquared {
          TrialStageIsExact(primeBase, n, i);
          return Some(true);
        }
      }
      WholeTableTried(primeBase, maxPrime, n, i);
      return None;
    }

    /** The stages of isPrimeQR after its trial division. */
    method LaterStages(n: int, numTests: int) returns (result: bool)
      requires Valid() && n > 2 && n % 2 == 1 && NoDivisorBelow(n, maxPrime + 1)
      ensures result <==> EulerAcceptsAll(primeBase, n, numTests) && FermatAcceptsAll(n)
    {
      var testsToRun := Tests(primeBase, numTests);
      var i := 0;
      while i < testsToRun
        invariant 0 <= i && forall j | 0 <= j < i && j < testsToRun :: EulerAccepts(n, primeBase[j])
      {
        EntryDoesNotDivide(primeBase, maxPrime, n, i);
        var accepted := EulerRound(n, primeBase[i]);
        if !accepted { return false; }
        i := i + 1;
      }
      result := FermatRounds(n);
    }

    /** The whole of isPrimeQR. */
    method IsPrimeQR(n: int, numTests: int) returns (result: bool)
      requires Valid()
      ensures result <==> PassesQR(primeBase, maxPrime, n, numTests)
      ensures n < maxPrime * maxPrime ==> (result <==> IsPrime(n))
      ensures IsPrime(n) ==> (result <==> n < maxPrime * maxPrime || (n != 3 && n != 5 && n != 7))
      ensures n < 2 || n % 2 == 0 ==> (result <==> n == 2)
      ensures n > 2 && n % 2 == 1 && n >= maxPrime * maxPrime ==>
                (result <==>
                 && (forall p | 2 <= p <= maxPrime :: n % p != 0)
                 && (forall i | 0 <= i < numTests && i < |primeBase| ::
                       Pow(primeBase[i], n / 2) % n == Jacobi(primeBase[i], n) % n)
                 && Pow(2, n - 1) % n == Pow(3, n - 1) % n == Pow(5, n - 1) % n == Pow(7, n - 1) % n == 1)
    {
      var decided := IsPrimeQRTrialStage(n);
      PrimesPassQR(primeBase, maxPrime, n, numTests);
      AnswerMeans(primeBase, maxPrime, n, numTests);
      if decided.Some? {
        result := decided.value;
      } else {
        result := LaterStages(n, numTests);
      }
    }
  }

  /** How many entries of the table are used as bases. */
  function Tests(table: seq<int>, numTests: int): (k: int)
    ensures k <= |table|
  {
    if numTests < |table| then numTests else |table|
  }

  ghost predicate EulerAcceptsAll(table: seq<int>, n: int, numTests: int)
    requires n > 0 && n % 2 == 1
  {
    forall i | 0 <= i < Tests(table, numTests) :: EulerAccepts(n, table[i])
  }

  /** The first numTests entries are tried, or all of them, and the four bases of Fermat's test. */
  lemma TestsMean(table: seq<int>, n: int, numTests: int)
    requires n > 2 && n % 2 == 1
    ensures EulerAcceptsAll(table, n, numTests) <==>
            forall i | 0 <= i < numTests && i < |table| :: Pow(table[i], n / 2) % n == Jacobi(table[i], n) % n
    ensures FermatAcceptsAll(n) <==>
            Pow(2, n - 1) % n == Pow(3, n - 1) % n == Pow(5, n - 1) % n == Pow(7, n - 1) % n == 1
  {
    assert FermatAcceptsAll(n) <==>
           FermatAccepts(n, 2) && FermatAccepts(n, 3) && FermatAccepts(n, 5) && FermatAccepts(n, 7) by {
      assert FERMAT_BASES[0] == 2 && FERMAT_BASES[1] == 3 && FERMAT_BASES[2] == 5 && FERMAT_BASES[3] == 7;
    }
    assert forall i | 0 <= i < numTests && i < |table| ::
        EulerAccepts(n, table[i]) <==> Pow(table[i], n / 2) % n == Jacobi(table[i], n) % n;
  }

  /** The answer of isPrimeQR: exact below the square of the largest entry; beyond it, no entry divides n, and n passes
      Euler's test for the first entries and Fermat's test for 2, 3, 5 and 7. */
  ghost predicate PassesQR(table: seq<int>, maxPrime: int, n: int, numTests: int) {
    n == 2 || (n > 2 && n % 2 == 1 &&
               if n < maxPrime * maxPrime then IsPrime(n)
               else NoDivisorBelow(n, maxPrime + 1) && EulerAcceptsAll(table, n, numTests) && FermatAcceptsAll(n))
  }

  /** The answer, spelled out. */
  lemma AnswerMeans(table: seq<int>, maxPrime: int, n: int, numTests: int)
    ensures n < 2 || n % 2 == 0 ==> (PassesQR(table, maxPrime, n, numTests) <==> n == 2)
    ensures n > 2 && n % 2 == 1 && n >= maxPrime * maxPrime ==>
              (PassesQR(table, maxPrime, n, numTests) <==>
               && (forall p | 2 <= p <= maxPrime :: n % p != 0)
               && (forall i | 0 <= i < numTests && i < |table| :: Pow(table[i], n / 2) % n == Jacobi(table[i], n) % n)
               && Pow(2, n - 1) % n == Pow(3, n - 1) % n == Pow(5, n - 1) % n == Pow(7, n - 1) % n == 1)
  {
    if n > 2 && n % 2 == 1 { TestsMean(table, n, numTests); }
  }

  lemma EntryAtMostLast(table: seq<int>, i: nat)
    requires IsPrimeTable(table) && i < |table|
    ensures 2 <= table[i] <= Last(table)
  {
    assert table[i] in table;
  }

  lemma WholeTableTried(table: seq<int>, maxPrime: int, n: int, i: nat)
    requires maxPrime == if table == [] then 0 else Last(table)
    requires i <= |table| && (i < |table| ==> table[i] * table[i] > n) && IsPrimeTable(table) && n >= 3
    requires maxPrime == 0 || maxPrime == 1 || n >= maxPrime * maxPrime
    requires i > 0 ==> NoDivisorBelow(n, table[i - 1] + 1)
    ensures NoDivisorBelow(n, maxPrime + 1)
  {
    if i < |table| {
      assert table[i] in table && Last(table) in table;
      assert table[i] <= Last(table);
      ProductAtLeast(table[i], table[i], Last(table), Last(table));
    }
  }

  lemma EntryDoesNotDivide(table: seq<int>, maxPrime: int, n: int, i: nat)
    requires IsPrimeTable(table) && i < |table| && maxPrime == Last(table) && NoDivisorBelow(n, maxPrime + 1)
    ensures IsPrime(table[i]) && n % table[i] != 0
  {
    assert table[i] in table;
    assert table[i] <= Last(table);
  }

  /** A prime beyond the square of the largest entry passes Euler's test for every entry. */
  lemma PrimePassesAll(table: seq<int>, maxPrime: int, n: int, numTests: int)
    requires IsPrimeTable(table) && maxPrime == if table == [] then 0 else Last(table)
    requires IsPrime(n) && n > 2 && n % 2 == 1 && n >= maxPrime * maxPrime && NoDivisorBelow(n, maxPrime + 1)
    ensures EulerAcceptsAll(table, n, numTests)
  {
    forall i | 0 <= i < Tests(table, numTests) ensures EulerAccepts(n, table[i]) {
      EntryDoesNotDivide(table, maxPrime, n, i);
      EntryIsBelow(table, n, i);
      PrimePassesEuler(n, table[i]);
    }
  }

  /** isPrimeQR rejects no prime but 3, 5 and 7, and these only beyond the square of the largest entry. */
  lemma PrimesPassQR(table: seq<int>, maxPrime: int, n: int, numTests: int)
    requires IsPrimeTable(table) && maxPrime == if table == [] then 0 else Last(table)
    ensures IsPrime(n) ==>
              (PassesQR(table, maxPrime, n, numTests) <==> n < maxPrime * maxPrime || (n != 3 && n != 5 && n != 7))
    ensures n < maxPrime * maxPrime ==> (PassesQR(table, maxPrime, n, numTests) <==> IsPrime(n))
  {
    assert table != [] ==> Last(table) in table;
    if IsPrime(n) && n > 2 {
      assert n % 2 != 0;
      if n >= maxPrime * maxPrime {
        MaxPrimeIsBelow(maxPrime, n);
        PrimePassesAll(table, maxPrime, n, numTests);
        PrimePassesFermat(n);
      }
    }
  }

  lemma MaxPrimeIsBelow(maxPrime: nat, n: int)
    requires IsPrime(n) && n >= maxPrime * maxPrime
    ensures NoDivisorBelow(n, maxPrime + 1)
  {
    if maxPrime >= n {
      ProductAtLeast(2, n, maxPrime, maxPrime);
    }
  }

  lemma EntryIsBelow(table: seq<int>, n: int, i: nat)
    requires IsPrimeTable(table) && i < |table| && n >= Last(table) * Last(table) && n > 1
    ensures table[i] % n != 0
  {
    assert table[i] in table && Last(table) in table;
    MultipleAtLeast(Last(table), Last(table));
    ProductAtLeast(2, Last(table), Last(table), Last(table));
    ModuloUnique(table[i], n, 0, table[i]);
  }

  /** Without a table, the composite number 29341 passes: Fermat's test is then all that is left. */
  lemma ReciprocityTestCanErr(numTests: int)
    ensures !IsPrime(29341) && PassesQR([], 0, 29341, numTests)
  {
    FermatCanErr();
  }

  lemma FirstThreePrimes()
    ensures IsPrimeTable([2, 3, 5])
  {
    assert IsPrime(2) && IsPrime(3) && IsPrime(5) && !IsPrime(4) by { assert 4 % 2 == 0; }
  }

  lemma TestsAt29341(table: seq<int>)
    requires table == [2, 3, 5]
    ensures EulerAcceptsAll(table, 29341, 2) && !EulerAcceptsAll(table, 29341, 3)
  {
    EulerAccepts29341();
    EulerRejects29341();
    assert Tests(table, 2) == 2 && Tests(table, 3) == 3;
    assert !EulerAccepts(29341, table[2]);
  }

  /** With a table the third entry rejects it; with two tests only the first two count. */
  lemma TestsDecide()
    ensures IsPrimeTable([2, 3, 5]) && PassesQR([2, 3, 5], 5, 29341, 2) && !PassesQR([2, 3, 5], 5, 29341, 3)
  {
    FirstThreePrimes();
    FermatCanErr();
    TestsAt29341([2, 3, 5]);
  }

  function Last(t: seq<int>): int
    requires t != []
  {
    t[|t| - 1]
  }

  /** No odd number from start up to (not including) i divides n. */
  ghost predicate OddsClear(n: int, start: int, i: int) {
    forall j | start <= j < i && j > 0 && j % 2 == 1 :: n % j != 0
  }

  /** The outcome of trying the odd numbers from start to the square root of n. */
  ghost predicate ScanOutcome(n: nat, start: int, r: int) {
    || (0 < start <= r <= FloorSqrt(n) && n % r == 0 && OddsClear(n, start, r))
    || (r == n && OddsClear(n, start, FloorSqrt(n) + 1))
  }

  /** The odd numbers from start on, up to the square root. */
  method ScanOdd(n: int, start: int) returns (r: int)
    requires n >= 3 && start >= 3 && start % 2 == 1
    ensures ScanOutcome(n, start, r)
  {
    var i := start;
    while i * i <= n
      invariant i >= start && i % 2 == 1 && OddsClear(n, start, i)
      decreases n - i
    {
      MultipleAtLeast(i, i);
      if n % i == 0 {
        ScanStops(n, start, i);
        return i;
      }
      NextOdd(n, start, i);
      i := i + 2;
    }
    ScanEnds(n, start, i);
    return n;
  }

  lemma ScanStops(n: nat, start: int, i: nat)
    requires 0 < start <= i && i * i <= n && n % i == 0 && OddsClear(n, start, i)
    ensures ScanOutcome(n, start, i)
  {
    BelowFloorSqrt(n, i);
  }

  lemma ScanEnds(n: nat, start: int, i: nat)
    requires i * i > n && OddsClear(n, start, i)
    ensures ScanOutcome(n, start, n)
  {
    BelowFloorSqrt(n, i);
  }

  lemma NextOdd(n: int, start: int, i: int)
    requires i > 0 && i % 2 == 1 && OddsClear(n, start, i) && n % i != 0
    ensures OddsClear(n, start, i + 2)
  {
  }

  lemma ScanIsLeast(n: int, start: int, r: int)
    requires n >= 3 && n % 2 == 1 && start >= 3 && NoDivisorBelow(n, start) && ScanOutcome(n, start, r)
    ensures IsLeastDivisor(n, r)
  {
    var d := LeastDivisorExists(n);
    LeastIsOdd(n, d);
    LeastOrSelf(n, d);
    assert start <= d;
    assert r <= d || d == n;
    RootBelow(n);
    assert d <= r;
  }

  lemma LeastOrSelf(n: int, d: int)
    requires IsLeastDivisor(n, d)
    ensures d == n || d <= FloorSqrt(n)
  {
    if d < n {
      LeastDivisorBelowRoot(n, d);
      BelowFloorSqrt(n, d);
    }
  }

  lemma RootBelow(n: nat)
    requires n >= 2
    ensures FloorSqrt(n) < n
  {
    BelowFloorSqrt(n, n);
    ProductAtLeast(2, n, n, n);
  }

  lemma LeastIsOdd(n: int, d: int)
    requires n % 2 == 1 && IsLeastDivisor(n, d)
    ensures d % 2 == 1
  {
    if d % 2 == 0 { DivisorsCompose(n, d, 2); }
  }

  /** The numbers below the start of the odd scan, after a whole table was tried. */
  lemma TableClears(t: seq<int>, n: int, start: int)
    requires IsPrimeTable(t) && n >= 3 && n % 2 == 1
    requires t != [] ==> NoDivisorBelow(n, Last(t) + 1)
    requires start == if |t| == 0 then 3 else if |t| == 1 then 5 else Last(t) + 2
    ensures start >= 3 && start % 2 == 1
    ensures |t| != 1 || n % 3 != 0 ==> NoDivisorBelow(n, start)
  {
    OneEntryTable(t);
    TableEndsOdd(t);
    forall d | 2 <= d < start && (|t| != 1 || n % 3 != 0) ensures n % d != 0 {
      if d % 2 == 0 && n % d == 0 { DivisorsCompose(n, d, 2); }
    }
  }

  /** A table of one entry holds only 2, which does not divide an odd n. */
  lemma EvenEntry(t: seq<int>, n: int, d: int)
    requires IsPrimeTable(t) && d in t && IsLeastDivisor(n, d) && n % 2 == 1
    ensures |t| != 1
  {
    OneEntryTable(t);
  }

  /** What the odd scan adds to the table scan. */
  lemma AfterTable(t: seq<int>, n: int, complete: bool, start: int, r: int)
    requires IsPrimeTable(t) && n >= 3 && n % 2 == 1
    requires start == if |t| == 0 then 3 else if |t| == 1 then 5 else Last(t) + 2
    requires complete && t != [] ==> NoDivisorBelow(n, Last(t) + 1)
    requires !complete ==> IsPrime(n) && t != [] && FloorSqrt(n) < Last(t)
    requires ScanOutcome(n, start, r)
    ensures IsLeastDivisor(n, r) <==> |t| != 1 || n % 3 != 0 || n == 3
  {
    if complete {
      TableClears(t, n, start);
      AfterFullTable(t, n, start, r);
    } else {
      OneEntryTable(t);
      AfterPartTable(t, n, start, r);
    }
  }

  /** When the table ran past the square root, nothing is left to find. */
  lemma AfterPartTable(t: seq<int>, n: int, start: int, r: int)
    requires t != [] && t[0] == 2 && n >= 3 && IsPrime(n) && FloorSqrt(n) < Last(t) < start
    requires ScanOutcome(n, start, r)
    ensures IsLeastDivisor(n, r)
    ensures |t| == 1 ==> n == 3
  {
    BelowFloorSqrt(n, 2);
  }

  lemma AfterFullTable(t: seq<int>, n: int, start: int, r: int)
    requires n >= 3 && n % 2 == 1 && start >= 3
    requires |t| == 1 ==> start == 5
    requires |t| != 1 || n % 3 != 0 ==> NoDivisorBelow(n, start)
    requires ScanOutcome(n, start, r)
    ensures IsLeastDivisor(n, r) <==> |t| != 1 || n % 3 != 0 || n == 3
  {
    if |t| != 1 || n % 3 != 0 {
      ScanIsLeast(n, start, r);
    } else if n == 3 {
      BelowFloorSqrt(n, 2);
      assert IsLeastDivisor(3, 3);
    }
  }

  /** The numbers that a scan from 5 misjudges: 3 is their least divisor. */
  ghost predicate SkipsThree(n: int) {
    n > 3 && n % 2 == 1 && n % 3 == 0
  }

  /** For them the scan finds nothing exactly at 27 and at the triples of primes. */
  lemma ScanFromFive(n: int, r: int)
    requires SkipsThree(n) && ScanOutcome(n, 5, r)
    ensures r == n <==> n == 27 || IsPrime(n / 3)
    ensures !IsPrime(n)
  {
    RootBelow(n);
    var m := n / 3;
    assert n == 3 * m;
    if r == n {
      NothingFromFive(n, m);
    } else {
      FoundFromFive(n, m, r);
    }
  }

  lemma NothingFromFive(n: int, m: int)
    requires n == 3 * m && n > 3 && n % 2 == 1 && OddsClear(n, 5, FloorSqrt(n) + 1)
    ensures n == 27 || IsPrime(m)
  {
    if !IsPrime(m) {
      var p := LeastDivisorExists(m);
      LeastDivisorBelowRoot(m, p);
      if p >= 5 {
        DivisorOfTriple(n, m, p);
        BelowFloorSqrt(n, p);
      } else if p == 3 {
        NineTimes(n, m / 3);
      } else {
        EvenDivisor(n, m, p);
      }
    }
  }

  lemma DivisorOfTriple(n: int, m: int, p: int)
    requires n == 3 * m && n % 2 == 1 && p > 0 && m % p == 0
    ensures n % p == 0 && p % 2 == 1
  {
    DivisorOfProduct(m, 3, p);
    if p % 2 == 0 { DivisorsCompose(n, p, 2); }
  }

  lemma EvenDivisor(n: int, m: int, p: int)
    requires n == 3 * m && n % 2 == 1 && 2 <= p < 5 && IsPrime(p) && m % p == 0
    ensures p == 3
  {
    DivisorOfTriple(n, m, p);
  }

  /** A multiple of 9 has 9 or its cofactor as an odd divisor from 5 to the root, except 27. */
  lemma NineTimes(n: int, q: int)
    requires n == 9 * q && n > 9 && n % 2 == 1 && OddsClear(n, 5, FloorSqrt(n) + 1)
    ensures n == 27
  {
    MultipleIsDivisible(9, q);
    MultipleIsDivisible(q, 9);
    if q >= 9 {
      BelowFloorSqrt(n, 9);
    } else if q >= 5 {
      ProductAtLeast(q, q, 9, q);
      BelowFloorSqrt(n, q);
    }
  }

  /** A divisor from 5 to the root rules out 27 and the triples of primes. */
  lemma FoundFromFive(n: int, m: int, r: int)
    requires n == 3 * m && n > 3 && n % 3 == 0 && 5 <= r <= FloorSqrt(n) && n % r == 0
    ensures n != 27 && !IsPrime(m)
  {
    if n == 27 {
      BelowFloorSqrt(n, r);
      TwentySeven(r);
    } else if IsPrime(m) {
      BelowFloorSqrt(n, r);
      ProductAtLeast(5, 5, r, r);
      var s := Quotient(n, r);
      SmallCofactor(m, r, s);
    }
  }

  lemma TwentySeven(r: int)
    requires r >= 5 && r * r <= 27
    ensures 27 % r != 0
  {
    if r >= 6 { ProductAtLeast(6, 6, r, r); }
  }

  lemma Quotient(n: int, r: int) returns (s: int)
    requires n > 0 && r > 0 && n % r == 0
    ensures r * s == n && s > 0
  {
    DivisorAtMost(n, r);
    s := n / r;
  }

  /** A factor of 3m whose square is at most 3m is at most 3 when m is a prime from 5 on. */
  lemma SmallCofactor(m: int, r: int, s: int)
    requires IsPrime(m) && r > 0 && s > 0 && r * s == 3 * m && r * r <= 3 * m
    ensures r <= 3 || m < 5
  {
    MultipleIsDivisible(m, 3);
    assert r * s == m * 3;
    EuclidsLemma(m, r, s);
    if r % m == 0 {
      DivisorAtMost(r, m);
      if m >= 5 { ProductAtLeast(5, m, r, r); }
    } else {
      DivisorAtMost(s, m);
      CancelPrime(r, m, s, s / m);
    }
  }

  lemma CancelPrime(r: int, m: int, s: int, t: int)
    requires r > 0 && m >= 2 && t > 0 && s == m * t && r * s == 3 * m
    ensures r <= 3
  {
    assert m * (r * t) == 3 * m;
    assert m * (r * t - 3) == 0;
    SmallMultiple(m, r * t - 3);
    ProductAtLeast(r, 1, r, t);
  }

  /** 9 is the least of them: a table of one prime makes the scan call it prime. */
  lemma NineIsMisjudged()
    ensures SkipsThree(9) && IsPrime(9 / 3) && !IsPrime(9) && forall r | ScanOutcome(9, 5, r) :: r == 9
  {
    SmallPrimes();
    BelowFloorSqrt(9, 4);
    assert 9 % 3 == 0;
  }

  lemma SmallPrimes()
    ensures IsPrime(2) && IsPrime(3)
  {
  }

  lemma OneEntryTable(t: seq<int>)
    requires IsPrimeTable(t)
    ensures t != [] ==> t[0] == 2
  {
    SmallPrimes();
    if t != [] {
      assert t[0] in t && Last(t) in t;
      var j :| 0 <= j < |t| && t[j] == 2;
    }
  }

  lemma TableEndsOdd(t: seq<int>)
    requires IsPrimeTable(t)
    ensures t != [] ==> Last(t) >= 2 && (Last(t) % 2 == 0 <==> |t| == 1) && (|t| == 1 ==> Last(t) == 2)
  {
    OneEntryTable(t);
    if t != [] {
      assert Last(t) in t;
    }
  }

  /** Between two entries there is no prime, so no least divisor. */
  lemma GapHasNoDivisor(t: seq<int>, n: int, i: nat)
    requires IsPrimeTable(t) && i < |t| && n >= 2
    requires i > 0 ==> NoDivisorBelow(n, t[i - 1] + 1)
    ensures NoDivisorBelow(n, t[i]) && t[i] >= 2 && t[i] <= Last(t)
    ensures n % t[i] != 0 ==> NoDivisorBelow(n, t[i] + 1)
  {
    assert t[i] in t;
    var d := LeastDivisorExists(n);
    if d <= Last(t) {
      assert d in t;
      var j :| 0 <= j < |t| && t[j] == d;
      assert j >= i;
    }
  }

  lemma TrialStageIsExact(t: seq<int>, n: int, i: nat)
    requires IsPrimeTable(t) && t != [] && n >= 3 && i <= |t| && n < Last(t) * Last(t)
    requires i > 0 ==> NoDivisorBelow(n, t[i - 1] + 1)
    requires i < |t| ==> t[i] * t[i] > n
    ensures IsPrime(n)
  {
    if i < |t| {
      GapHasNoDivisor(t, n, i);
      NoDivisorToRoot(n, t[i]);
    } else {
      assert Last(t) in t;
      NoDivisorToRoot(n, Last(t));
    }
  }
}
