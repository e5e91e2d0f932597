/** The Legendre and Jacobi symbols, and why the two laws that the Jacobi loop applies hold: Gauss's lemma,
    Eisenstein's lattice count and Euler's criterion. */
module Reciprocity {
  import opened Masks
  import opened NumberTheory

  // ----- Sums and products that do not depend on the order -----

  function SumOver(f: int -> int, s: seq<int>): int {
    if s == [] then 0 else SumOver(f, s[..|s| - 1]) + f(s[|s| - 1])
  }

  function ProductOf(s: seq<int>): int {
    if s == [] then 1 else ProductOf(s[..|s| - 1]) * s[|s| - 1]
  }

  function Without(s: seq<int>, i: nat): (t: seq<int>)
    requires i < |s|
    ensures |t| == |s| - 1
    ensures forall j | 0 <= j < |t| :: t[j] == if j < i then s[j] else s[j + 1]
  {
    s[..i] + s[i + 1..]
  }

  lemma {:induction false} SumWithout(f: int -> int, s: seq<int>, i: nat)
    requires i < |s|
    ensures SumOver(f, s) == SumOver(f, Without(s, i)) + f(s[i])
    decreases |s|
  {
    var n := |s| - 1;
    if i == n {
      assert Without(s, i) == s[..n];
    } else {
      SumWithout(f, s[..n], i);
      assert Without(s, i)[..n - 1] == Without(s[..n], i);
    }
  }

  lemma {:induction false} ProductWithout(s: seq<int>, i: nat)
    requires i < |s|
    ensures ProductOf(s) == ProductOf(Without(s, i)) * s[i]
    decreases |s|
  {
    var n := |s| - 1;
    if i < n {
      ProductWithout(s[..n], i);
      assert Without(s, i)[..n - 1] == Without(s[..n], i);
      var p := ProductOf(Without(s[..n], i));
      assert p * s[i] * s[n] == p * s[n] * s[i];
    } else {
      assert Without(s, i) == s[..n];
    }
  }

  ghost predicate Distinct(s: seq<int>) {
    forall i, j | 0 <= i < j < |s| :: s[i] != s[j]
  }

  ghost predicate Within(s: seq<int>, lo: int, hi: int) {
    forall i | 0 <= i < |s| :: lo <= s[i] <= hi
  }

  /** 1, 2, .. h. */
  function UpTo(h: nat): (s: seq<int>)
    ensures |s| == h && forall i | 0 <= i < h :: s[i] == i + 1
  {
    seq(h, i => i + 1)
  }

  lemma UpToStep(f: int -> int, h: nat)
    requires h > 0
    ensures SumOver(f, UpTo(h)) == SumOver(f, UpTo(h - 1)) + f(h)
    ensures ProductOf(UpTo(h)) == ProductOf(UpTo(h - 1)) * h
  {
    assert UpTo(h)[..h - 1] == UpTo(h - 1);
  }

  lemma {:induction false} Pigeonhole(s: seq<int>, m: nat)
    requires Distinct(s) && Within(s, 1, m)
    ensures |s| <= m
    decreases m
  {
    if s == [] {
    } else if i :| 0 <= i < |s| && s[i] == m {
      Pigeonhole(Without(s, i), m - 1);
    } else {
      assert 1 <= s[0] <= m;
      Pigeonhole(s, m - 1);
    }
  }

  lemma LargestOccurs(s: seq<int>, m: nat) returns (i: nat)
    requires Distinct(s) && Within(s, 1, m) && |s| == m > 0
    ensures i < m && s[i] == m
  {
    if forall j | 0 <= j < m :: s[j] != m { Pigeonhole(s, m - 1); }
    i :| i < m && s[i] == m;
  }

  /** m distinct numbers from 1 to m are all of them. */
  lemma {:induction false} Permuted(f: int -> int, s: seq<int>, m: nat)
    requires Distinct(s) && Within(s, 1, m) && |s| == m
    ensures SumOver(f, s) == SumOver(f, UpTo(m)) && ProductOf(s) == ProductOf(UpTo(m))
    decreases m
  {
    if m == 0 {
      assert s == UpTo(m);
    } else {
      var i := LargestOccurs(s, m);
      SumWithout(f, s, i);
      ProductWithout(s, i);
      Permuted(f, Without(s, i), m - 1);
      UpToStep(f, m);
    }
  }

  // ----- Parity -----

  /** -1 to the x. */
  function Sign(x: int): (s: int)
    ensures s == 1 || s == -1
  {
    if x % 2 == 0 then 1 else -1
  }

  lemma SignOfSum(x: int, y: int)
    ensures Sign(x + y) == Sign(x) * Sign(y)
  {
  }

  lemma SignAgrees(x: int, y: int)
    requires (x - y) % 2 == 0
    ensures Sign(x) == Sign(y)
  {
  }

  lemma EvenSum(x: int, y: int)
    requires x % 2 == 0 && y % 2 == 0
    ensures (x + y) % 2 == 0
  {
  }

  // ----- Remainders of least absolute value -----

  function Residue(a: int, n: nat, k: int): (r: nat)
    ensures n > 0 ==> r < n
  {
    if n == 0 then 0 else (a * k) % n
  }

  /** 1 when a * k leaves a remainder above n / 2. */
  function Upper(a: int, n: nat, k: int): int {
    if 2 * Residue(a, n, k) > n then 1 else 0
  }

  /** How far a * k is from the nearest multiple of n. */
  function Nearest(a: int, n: nat, k: int): int {
    if 2 * Residue(a, n, k) > n then n - Residue(a, n, k) else Residue(a, n, k)
  }

  function Signed(x: int, minus: bool): int {
    if minus then -x else x
  }

  lemma NearestIs(a: int, n: nat, k: int) returns (q: int)
    requires n > 0
    ensures a * k == n * q + Signed(Nearest(a, n, k), Upper(a, n, k) == 1)
  {
    q := (a * k) / n + Upper(a, n, k);
    var d := (a * k) / n;
    assert a * k == n * d + Residue(a, n, k);
    assert n * (d + 1) == n * d + n;
  }

  lemma ResidueIsPositive(a: int, n: nat, k: int)
    requires n > 0 && Coprime(a, n) && 0 < k < n
    ensures Residue(a, n, k) > 0
  {
    if Residue(a, n, k) == 0 {
      CoprimeCancel(a, k, n);
      ModuloUnique(k, n, 0, k);
    }
  }

  lemma NearestRange(a: int, n: nat, k: int)
    requires n % 2 == 1 && Coprime(a, n) && 1 <= k <= n / 2
    ensures 1 <= Nearest(a, n, k) <= n / 2
  {
    ResidueIsPositive(a, n, k);
  }

  lemma NearestDiffers(a: int, n: nat, k: int, l: int)
    requires n % 2 == 1 && Coprime(a, n) && 1 <= k < l <= n / 2
    ensures Nearest(a, n, k) != Nearest(a, n, l)
  {
    if Nearest(a, n, k) == Nearest(a, n, l) {
      var q := NearestIs(a, n, k);
      var r := NearestIs(a, n, l);
      var x, y := if Upper(a, n, k) == Upper(a, n, l) then l - k else l + k,
                  if Upper(a, n, k) == Upper(a, n, l) then r - q else r + q;
      assert a * x == n * y;
      MultipleIsDivisible(n, y);
      CoprimeCancel(a, x, n);
      ModuloUnique(x, n, 0, x);
    }
  }

  function Nears(a: int, n: nat, h: nat): (s: seq<int>)
    ensures |s| == h && forall i | 0 <= i < h :: s[i] == Nearest(a, n, i + 1)
  {
    seq(h, i => Nearest(a, n, i + 1))
  }

  lemma NearsStep(f: int -> int, a: int, n: nat, h: nat)
    requires h > 0
    ensures SumOver(f, Nears(a, n, h)) == SumOver(f, Nears(a, n, h - 1)) + f(Nearest(a, n, h))
    ensures ProductOf(Nears(a, n, h)) == ProductOf(Nears(a, n, h - 1)) * Nearest(a, n, h)
  {
    assert Nears(a, n, h)[..h - 1] == Nears(a, n, h - 1);
  }

  lemma NearsAreDistinct(a: int, n: nat)
    requires n % 2 == 1 && Coprime(a, n)
    ensures Distinct(Nears(a, n, n / 2)) && Within(Nears(a, n, n / 2), 1, n / 2)
  {
    var h, s := n / 2, Nears(a, n, n / 2);
    forall i | 0 <= i < h ensures 1 <= s[i] <= h {
      NearestRange(a, n, i + 1);
    }
    forall i, j | 0 <= i < j < h ensures s[i] != s[j] {
      NearestDiffers(a, n, i + 1, j + 1);
    }
  }

  /** The distances of a, 2a, .. (n/2)a from the multiples of n are 1 to n/2, in some order. */
  lemma NearsPermute(f: int -> int, a: int, n: nat)
    requires n % 2 == 1 && Coprime(a, n)
    ensures SumOver(f, Nears(a, n, n / 2)) == SumOver(f, UpTo(n / 2))
    ensures ProductOf(Nears(a, n, n / 2)) == ProductOf(UpTo(n / 2))
  {
    NearsAreDistinct(a, n);
    Permuted(f, Nears(a, n, n / 2), n / 2);
  }

  // ----- The symbol, by counting -----

  function UpperOf(a: int, n: nat): int -> int {
    k => Upper(a, n, k)
  }

  /** How many of a, 2a, .. (n/2)a leave a remainder above n / 2. */
  function Uppers(a: int, n: nat): int {
    SumOver(UpperOf(a, n), UpTo(n / 2))
  }

  /** The symbol of Gauss and Schering. */
  function Symbol(a: int, n: nat): (s: int)
    ensures s == 1 || s == -1
  {
    Sign(Uppers(a, n))
  }

  lemma {:induction false} SumAgrees(f: int -> int, g: int -> int, h: nat)
    requires forall k | 1 <= k <= h :: f(k) == g(k)
    ensures SumOver(f, UpTo(h)) == SumOver(g, UpTo(h))
    decreases h
  {
    if h > 0 {
      UpToStep(f, h);
      UpToStep(g, h);
      SumAgrees(f, g, h - 1);
    } else {
      assert UpTo(h) == [];
    }
  }

  /** The symbol depends on a modulo n only. */
  lemma SymbolOfRemainder(a: int, b: int, n: nat)
    requires n > 0 && a % n == b % n
    ensures Symbol(a, n) == Symbol(b, n)
  {
    forall k | 1 <= k <= n / 2 ensures UpperOf(a, n)(k) == UpperOf(b, n)(k) {
      ModMul(a, k, n);
      ModMul(b, k, n);
    }
    SumAgrees(UpperOf(a, n), UpperOf(b, n), n / 2);
  }

  // ----- The symbol of a product -----

  lemma ProductRemainder(x: int, b: int, n: nat, s: int, minus: bool, q: int, d: int, r: int)
    requires x == n * q + Signed(s, minus) && b * s == n * d + r && 0 < r < n
    ensures (b * x) % n == if minus then n - r else r
  {
    if minus {
      assert b * x == n * (b * q - d - 1) + (n - r) by { assert b * (n * q - s) == n * (b * q) - b * s; }
      ModuloUnique(b * x, n, b * q - d - 1, n - r);
    } else {
      assert b * x == n * (b * q + d) + r by { assert b * (n * q + s) == n * (b * q) + b * s; }
      ModuloUnique(b * x, n, b * q + d, r);
    }
  }

  lemma UpperOfProduct(a: int, b: int, n: nat, k: int)
    requires n % 2 == 1 && Coprime(a, n) && Coprime(b, n) && 1 <= k <= n / 2
    ensures (Upper(a * b, n, k) - Upper(a, n, k) - Upper(b, n, Nearest(a, n, k))) % 2 == 0
  {
    var s, minus := Nearest(a, n, k), Upper(a, n, k) == 1;
    var q := NearestIs(a, n, k);
    NearestRange(a, n, k);
    ResidueIsPositive(b, n, s);
    var r, d := Residue(b, n, s), (b * s) / n;
    ProductRemainder(a * k, b, n, s, minus, q, d, r);
    assert (a * b) * k == b * (a * k);
    assert Residue(a * b, n, k) == if minus then n - r else r;
  }

  lemma {:induction false} ParityOfSums(e: int -> int, f: int -> int, g: int -> int, h: nat)
    requires forall k | 1 <= k <= h :: (e(k) - f(k) - g(k)) % 2 == 0
    ensures (SumOver(e, UpTo(h)) - SumOver(f, UpTo(h)) - SumOver(g, UpTo(h))) % 2 == 0
    decreases h
  {
    if h == 0 {
      assert UpTo(h) == [];
    } else {
      UpToStep(e, h);
      UpToStep(f, h);
      UpToStep(g, h);
      ParityOfSums(e, f, g, h - 1);
      EvenSum(SumOver(e, UpTo(h - 1)) - SumOver(f, UpTo(h - 1)) - SumOver(g, UpTo(h - 1)), e(h) - f(h) - g(h));
    }
  }

  function AtNearest(f: int -> int, a: int, n: nat): int -> int {
    k => f(Nearest(a, n, k))
  }

  lemma {:induction false} SumAtNearest(f: int -> int, a: int, n: nat, h: nat)
    ensures SumOver(f, Nears(a, n, h)) == SumOver(AtNearest(f, a, n), UpTo(h))
    decreases h
  {
    if h == 0 {
      assert UpTo(h) == [] && Nears(a, n, h) == [];
    } else {
      NearsStep(f, a, n, h);
      UpToStep(AtNearest(f, a, n), h);
      SumAtNearest(f, a, n, h - 1);
    }
  }

  /** Summed over 1 to n / 2, a function gives the same at these numbers as at their distances. */
  lemma SumOfNearest(f: int -> int, a: int, n: nat)
    requires n % 2 == 1 && Coprime(a, n)
    ensures SumOver(AtNearest(f, a, n), UpTo(n / 2)) == SumOver(f, UpTo(n / 2))
  {
    SumAtNearest(f, a, n, n / 2);
    NearsPermute(f, a, n);
  }

  lemma SignOfParts(x: int, y: int, z: int)
    requires (x - y - z) % 2 == 0
    ensures Sign(x) == Sign(y) * Sign(z)
  {
    SignAgrees(x, y + z);
    SignOfSum(y, z);
  }

  lemma UppersOfProduct(a: int, b: int, n: nat)
    requires n % 2 == 1 && Coprime(a, n) && Coprime(b, n)
    ensures (Uppers(a * b, n) - Uppers(a, n) - Uppers(b, n)) % 2 == 0
  {
    var e, f, g := UpperOf(a * b, n), UpperOf(a, n), UpperOf(b, n);
    forall k | 1 <= k <= n / 2 ensures (e(k) - f(k) - AtNearest(g, a, n)(k)) % 2 == 0 {
      UpperOfProduct(a, b, n, k);
    }
    ParityOfSums(e, f, AtNearest(g, a, n), n / 2);
    SumOfNearest(g, a, n);
  }

  /** The symbol is multiplicative in its first argument. */
  lemma SymbolOfProduct(a: int, b: int, n: nat)
    requires n % 2 == 1 && Coprime(a, n) && Coprime(b, n)
    ensures Symbol(a * b, n) == Symbol(a, n) * Symbol(b, n)
  {
    UppersOfProduct(a, b, n);
    SignOfParts(Uppers(a * b, n), Uppers(a, n), Uppers(b, n));
  }

  // ----- The symbol of 2 -----

  function Same(): int -> int {
    k => k
  }

  function Zero(): int -> int {
    _ => 0
  }

  lemma {:induction false} SumOfZero(h: nat)
    ensures SumOver(Zero(), UpTo(h)) == 0
    decreases h
  {
    if h == 0 {
      assert UpTo(h) == [];
    } else {
      UpToStep(Zero(), h);
      SumOfZero(h - 1);
    }
  }

  lemma TriangularStep(h: nat)
    requires h > 0
    ensures var up, down := h % 4 == 0 || h % 4 == 3, (h - 1) % 4 == 0 || (h - 1) % 4 == 3;
            Sign(h) == if up == down then 1 else -1
  {
    var q, r := h / 4, h % 4;
    if r == 0 { ModuloUnique(h - 1, 4, q - 1, 3); } else { ModuloUnique(h - 1, 4, q, r - 1); }
    ModuloUnique(h, 2, 2 * q + r / 2, r % 2);
  }

  lemma {:induction false} TriangularParity(h: nat)
    ensures Sign(SumOver(Same(), UpTo(h))) == if h % 4 == 0 || h % 4 == 3 then 1 else -1
    decreases h
  {
    if h == 0 {
      assert UpTo(h) == [];
    } else {
      UpToStep(Same(), h);
      TriangularParity(h - 1);
      TriangularStep(h);
      SignOfSum(SumOver(Same(), UpTo(h - 1)), h);
    }
  }

  lemma UpperOfTwo(n: nat, k: int)
    requires n % 2 == 1 && 1 <= k <= n / 2
    ensures (Nearest(2, n, k) - Upper(2, n, k)) % 2 == 0
  {
    ModuloUnique(2 * k, n, 0, 2 * k);
  }

  lemma UppersOfTwo(n: nat)
    requires n % 2 == 1
    ensures (SumOver(Same(), UpTo(n / 2)) - Uppers(2, n)) % 2 == 0
  {
    var near, upper, h := AtNearest(Same(), 2, n), UpperOf(2, n), n / 2;
    OddSharesNoTwo(n);
    forall k | 1 <= k <= h ensures (near(k) - upper(k) - Zero()(k)) % 2 == 0 {
      UpperOfTwo(n, k);
    }
    ParityOfSums(near, upper, Zero(), h);
    SumOfZero(h);
    SumOfNearest(Same(), 2, n);
  }

  lemma HalfModuloFour(n: nat)
    requires n % 2 == 1
    ensures n / 2 % 4 == 0 || n / 2 % 4 == 3 <==> !(n % 8 == 3 || n % 8 == 5)
  {
    assert n % 8 == 2 * (n / 2 % 4) + 1;
  }

  /** 2 counts positive when n is 1 or 7 modulo 8, negative when it is 3 or 5. */
  lemma SymbolOfTwo(n: nat)
    requires n % 2 == 1
    ensures Symbol(2, n) == Signed(1, n % 8 == 3 || n % 8 == 5)
  {
    UppersOfTwo(n);
    SignAgrees(SumOver(Same(), UpTo(n / 2)), Uppers(2, n));
    TriangularParity(n / 2);
    HalfModuloFour(n);
  }

  lemma OddSharesNoTwo(n: nat)
    requires n % 2 == 1
    ensures Coprime(2, n)
  {
    forall d | CommonDivisor(d, 2, n) ensures d == 1 {
      DivisorAtMost(2, d);
    }
  }

  // ----- Eisenstein's count -----

  function QuotientOf(a: int, n: nat): int -> int {
    k => if n == 0 then 0 else (a * k) / n
  }

  /** Multiples of a below n * k, counted over all k. */
  function Quotients(a: int, n: nat): int {
    SumOver(QuotientOf(a, n), UpTo(n / 2))
  }

  function GapOf(a: int, n: nat): int -> int {
    k => k - Nearest(a, n, k)
  }

  lemma {:induction false} SumOfGaps(a: int, n: nat, h: nat)
    ensures SumOver(GapOf(a, n), UpTo(h)) == SumOver(Same(), UpTo(h)) - SumOver(AtNearest(Same(), a, n), UpTo(h))
    decreases h
  {
    if h == 0 {
      assert UpTo(h) == [];
    } else {
      UpToStep(GapOf(a, n), h);
      UpToStep(Same(), h);
      UpToStep(AtNearest(Same(), a, n), h);
      SumOfGaps(a, n, h - 1);
    }
  }

  lemma OddProduct(a: int, k: int)
    requires a % 2 == 1
    ensures (a * k - k) % 2 == 0
  {
    var half := a / 2;
    assert a * k == 2 * (half * k) + k by { assert a == 2 * half + 1; }
    MultipleIsDivisible(2, half * k);
  }

  lemma QuotientAlgebra(x: int, y: int, n: int, q: int, r: int, k: int)
    requires n % 2 == 1 && x == y + r && (x - k) % 2 == 0 && (y - q) % 2 == 0
    ensures (q - (k - r)) % 2 == 0
    ensures (q - 1 - (k - (n - r))) % 2 == 0
  {
  }

  lemma QuotientParity(a: int, n: nat, k: int)
    requires n % 2 == 1 && a % 2 == 1
    ensures (QuotientOf(a, n)(k) - Upper(a, n, k) - GapOf(a, n)(k)) % 2 == 0
  {
    var x := a * k;
    var q, r := x / n, x % n;
    var y := n * q;
    OddProduct(a, k);
    OddProduct(n, q);
    QuotientAlgebra(x, y, n, q, r, k);
  }

  /** For odd a, the symbol is the parity of the quotients. */
  lemma SymbolByQuotients(a: int, n: nat)
    requires n % 2 == 1 && a % 2 == 1 && Coprime(a, n)
    ensures Symbol(a, n) == Sign(Quotients(a, n))
  {
    var h := n / 2;
    forall k | 1 <= k <= h ensures (QuotientOf(a, n)(k) - UpperOf(a, n)(k) - GapOf(a, n)(k)) % 2 == 0 {
      QuotientParity(a, n, k);
    }
    ParityOfSums(QuotientOf(a, n), UpperOf(a, n), GapOf(a, n), h);
    SumOfGaps(a, n, h);
    SumOfNearest(Same(), a, n);
    SignAgrees(Quotients(a, n), Uppers(a, n));
  }

  // ----- The lattice between the two arguments -----

  /** How many of n, 2n, .. hn are below x. */
  function Column(x: nat, n: nat, h: nat): nat {
    if h == 0 then 0 else Column(x, n, h - 1) + if n * h < x then 1 else 0
  }

  /** The points (k, j) of a rectangle with n * j below m * k. */
  function Below(m: nat, n: nat, w: nat, h: nat): nat {
    if w == 0 then 0 else Below(m, n, w - 1, h) + Column(m * w, n, h)
  }

  lemma NotOnDiagonal(m: nat, n: nat, k: nat, j: nat)
    requires n > 0 && Coprime(m, n) && 0 < k < n
    ensures (m * k) % n != 0 && n * j != m * k
  {
    if (m * k) % n == 0 {
      CoprimeCancel(m, k, n);
      ModuloUnique(k, n, 0, k);
    }
    MultipleIsDivisible(n, j);
  }

  function Least(x: int, y: int): int {
    if x <= y then x else y
  }

  lemma {:induction false} ColumnIsQuotient(x: nat, n: nat, h: nat)
    requires n > 0 && x % n != 0
    ensures Column(x, n, h) == Least(h, x / n)
    decreases h
  {
    if h > 0 {
      ColumnIsQuotient(x, n, h - 1);
      MultipleIsDivisible(n, h);
      QuotientReaches(x, n, h);
    }
  }

  lemma QuotientReaches(x: nat, n: nat, h: nat)
    requires n > 0
    ensures h <= x / n <==> n * h <= x
  {
    var q := x / n;
    assert x == n * q + x % n;
    if h <= q { ProductAtLeast(n, h, n, q); } else { ProductAtLeast(n, q + 1, n, h); assert n * (q + 1) == n * q + n; }
  }

  lemma QuotientAtMostHalf(m: nat, n: nat, k: nat)
    requires n % 2 == 1 && m % 2 == 1 && k <= n / 2
    ensures (m * k) / n <= m / 2
  {
    var h := m / 2 + 1;
    QuotientReaches(m * k, n, h);
    ProductAtLeast(m, k, m, n / 2);
    assert m * (n / 2) < n * h by {
      assert m == 2 * (m / 2) + 1 && n == 2 * (n / 2) + 1;
      assert n * h == n * (m / 2) + n;
      assert 2 * (m * (n / 2)) == m * n - m && 2 * (n * (m / 2)) == n * m - n;
    }
  }

  lemma {:induction false} BelowIsQuotients(m: nat, n: nat, w: nat)
    requires n % 2 == 1 && m % 2 == 1 && Coprime(m, n) && w <= n / 2
    ensures Below(m, n, w, m / 2) == SumOver(QuotientOf(m, n), UpTo(w))
    decreases w
  {
    if w == 0 {
      assert UpTo(w) == [];
    } else {
      UpToStep(QuotientOf(m, n), w);
      BelowIsQuotients(m, n, w - 1);
      NotOnDiagonal(m, n, w, 0);
      ColumnIsQuotient(m * w, n, m / 2);
      QuotientAtMostHalf(m, n, w);
    }
  }

  /** Adding a row to the points on the other side. */
  lemma {:induction false} BelowGrows(m: nat, n: nat, w: nat, h: nat)
    requires n > 0 && Coprime(m, n) && 0 < w < n
    ensures Below(n, m, h, w) == Below(n, m, h, w - 1) + h - Column(m * w, n, h)
    decreases h
  {
    if h > 0 {
      BelowGrows(m, n, w, h - 1);
      NotOnDiagonal(m, n, w, h);
    }
  }

  /** No point is on the diagonal, so the two sides make up the rectangle. */
  lemma {:induction false} Rectangle(m: nat, n: nat, w: nat, h: nat)
    requires n > 0 && Coprime(m, n) && w < n
    ensures Below(m, n, w, h) + Below(n, m, h, w) == w * h
    decreases w
  {
    if w == 0 {
      NoWidth(n, m, h);
    } else {
      Rectangle(m, n, w - 1, h);
      BelowGrows(m, n, w, h);
      assert w * h == (w - 1) * h + h;
    }
  }

  lemma {:induction false} NoWidth(n: nat, m: nat, h: nat)
    ensures Below(n, m, h, 0) == 0
    decreases h
  {
    if h > 0 { NoWidth(n, m, h - 1); }
  }

  lemma CoprimeIsSymmetric(a: int, n: int)
    requires Coprime(a, n)
    ensures Coprime(n, a)
  {
    forall d | CommonDivisor(d, n, a) ensures d == 1 {
      assert CommonDivisor(d, a, n);
    }
  }

  lemma QuotientsOfBoth(m: nat, n: nat)
    requires m % 2 == 1 && n % 2 == 1 && Coprime(m, n)
    ensures Quotients(m, n) + Quotients(n, m) == (n / 2) * (m / 2)
  {
    CoprimeIsSymmetric(m, n);
    BelowIsQuotients(m, n, n / 2);
    BelowIsQuotients(n, m, m / 2);
    Rectangle(m, n, n / 2, m / 2);
  }

  lemma HalfIsOdd(n: nat)
    requires n % 2 == 1
    ensures n / 2 % 2 == 1 <==> n % 4 == 3
  {
  }

  /** The law of quadratic reciprocity. */
  lemma SymbolExchange(m: nat, n: nat)
    requires m % 2 == 1 && n % 2 == 1 && Coprime(m, n)
    ensures Symbol(m, n) == Signed(Symbol(n, m), m % 4 == 3 && n % 4 == 3)
  {
    CoprimeIsSymmetric(m, n);
    SymbolByQuotients(m, n);
    SymbolByQuotients(n, m);
    QuotientsOfBoth(m, n);
    SignOfSum(Quotients(m, n), Quotients(n, m));
    ProductParity(n / 2, m / 2);
    HalfIsOdd(m);
    HalfIsOdd(n);
  }

  lemma ProductParity(x: nat, y: nat)
    ensures (x * y) % 2 == 1 <==> x % 2 == 1 && y % 2 == 1
  {
    if x % 2 == 0 {
      assert x * y == 2 * (x / 2 * y);
    } else {
      OddProduct(x, y);
    }
  }
}
