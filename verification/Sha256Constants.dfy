/** The constants of SHA-256 are fractions of roots of the first primes (FIPS 180-4, sections 4.2.2 and 5.3.3). */
module Sha256Constants {
  import opened BitNumbers
  import opened Masks
  import opened NumberTheory
  import opened PrimeTable
  import opened Sha256Standard

  const PRIMES: seq<int> :=
    [2, 3, 5, 7, 11, 13, 17, 19] +
    [23, 29, 31, 37, 41, 43, 47, 53] +
    [59, 61, 67, 71, 73, 79, 83, 89] +
    [97, 101, 103, 107, 109, 113, 127, 131] +
    [137, 139, 149, 151, 157, 163, 167, 173] +
    [179, 181, 191, 193, 197, 199, 211, 223] +
    [227, 229, 233, 239, 241, 251, 257, 263] +
    [269, 271, 277, 281, 283, 293, 307, 311]

  // ----- The first 64 primes -----

  ghost predicate NoSmallFactor(p: int) {
    && p % 2 != 0 && p % 3 != 0 && p % 5 != 0 && p % 7 != 0 && p % 11 != 0 && p % 13 != 0 && p % 17 != 0
  }

  lemma SmallDivisor(p: int, d: int)
    requires NoSmallFactor(p) && 2 <= d < 18
    ensures p % d != 0
  {
    if p % d == 0 {
      if d % 2 == 0 { DivisorsCompose(p, d, 2); }
      if d % 3 == 0 { DivisorsCompose(p, d, 3); }
      if d % 5 == 0 { DivisorsCompose(p, d, 5); }
    }
  }

  lemma PrimeIff(p: int)
    requires 18 <= p < 324
    ensures IsPrime(p) <==> NoSmallFactor(p)
  {
    if NoSmallFactor(p) {
      forall d | 2 <= d < 18 ensures p % d != 0 {
        SmallDivisor(p, d);
      }
      NoDivisorToRoot(p, 18);
    }
  }

  ghost predicate InRow1(p: int) {
    p == 2 || p == 3 || p == 5 || p == 7 || p == 11 || p == 13 || p == 17 || p == 19
  }

  ghost predicate InRow2(p: int) {
    p == 23 || p == 29 || p == 31 || p == 37 || p == 41 || p == 43 || p == 47 || p == 53
  }

  ghost predicate InRow3(p: int) {
    p == 59 || p == 61 || p == 67 || p == 71 || p == 73 || p == 79 || p == 83 || p == 89
  }

  ghost predicate InRow4(p: int) {
    p == 97 || p == 101 || p == 103 || p == 107 || p == 109 || p == 113 || p == 127 || p == 131
  }

  ghost predicate InRow5(p: int) {
    p == 137 || p == 139 || p == 149 || p == 151 || p == 157 || p == 163 || p == 167 || p == 173
  }

  ghost predicate InRow6(p: int) {
    p == 179 || p == 181 || p == 191 || p == 193 || p == 197 || p == 199 || p == 211 || p == 223
  }

  ghost predicate InRow7(p: int) {
    p == 227 || p == 229 || p == 233 || p == 239 || p == 241 || p == 251 || p == 257 || p == 263
  }

  ghost predicate InRow8(p: int) {
    p == 269 || p == 271 || p == 277 || p == 281 || p == 283 || p == 293 || p == 307 || p == 311
  }

  /** The numbers of the table, row by row. */
  lemma Entries(p: int)
    ensures p in PRIMES <==>
              || InRow1(p) || InRow2(p) || InRow3(p) || InRow4(p)
              || InRow5(p) || InRow6(p) || InRow7(p) || InRow8(p)
  {
  }

  lemma Row2(p: int)
    requires 23 <= p < 59 && NoSmallFactor(p)
    ensures InRow2(p)
  {
  }

  lemma Row3(p: int)
    requires 59 <= p < 97 && NoSmallFactor(p)
    ensures InRow3(p)
  {
  }

  lemma Row4(p: int)
    requires 97 <= p < 137 && NoSmallFactor(p)
    ensures InRow4(p)
  {
  }

  lemma Row5(p: int)
    requires 137 <= p < 179 && NoSmallFactor(p)
    ensures InRow5(p)
  {
  }

  lemma Row6(p: int)
    requires 179 <= p < 227 && NoSmallFactor(p)
    ensures InRow6(p)
  {
  }

  lemma Row7(p: int)
    requires 227 <= p < 269 && NoSmallFactor(p)
    ensures InRow7(p)
  {
  }

  lemma Row8(p: int)
    requires 269 <= p < 312 && NoSmallFactor(p)
    ensures InRow8(p)
  {
  }

  lemma Row1(p: int)
    requires p < 23 && IsPrime(p)
    ensures InRow1(p)
  {
    assert p > 2 ==> p % 2 != 0;
    assert p > 3 ==> p % 3 != 0;
  }

  lemma FirstRow(p: int)
    requires InRow1(p)
    ensures IsPrime(p)
  {
  }

  lemma MiddleRows(p: int)
    requires InRow2(p) || InRow3(p) || InRow4(p)
    ensures 18 <= p <= 311 && NoSmallFactor(p)
  {
  }

  lemma LastRows(p: int)
    requires InRow5(p) || InRow6(p) || InRow7(p) || InRow8(p)
    ensures 18 <= p <= 311 && NoSmallFactor(p)
  {
  }

  lemma ListedIsPrime(p: int)
    requires p in PRIMES
    ensures IsPrime(p) && p <= 311
  {
    Entries(p);
    if InRow1(p) {
      FirstRow(p);
    } else {
      if InRow2(p) || InRow3(p) || InRow4(p) { MiddleRows(p); } else { LastRows(p); }
      PrimeIff(p);
    }
  }

  lemma NextIsGreater(i: nat)
    requires i < 63
    ensures |PRIMES| == 64 && PRIMES[i] < PRIMES[i + 1]
  {
  }

  lemma {:induction false} Ordered(i: nat, j: nat)
    requires i < j < 64
    ensures |PRIMES| == 64 && PRIMES[i] < PRIMES[j]
    decreases j
  {
    NextIsGreater(j - 1);
    if i < j - 1 { Ordered(i, j - 1); }
  }

  lemma ListedPrime(p: int)
    requires IsPrime(p) && p <= 311
    ensures p in PRIMES
  {
    Entries(p);
    if p < 23 {
      Row1(p);
    } else if p < 59 {
      PrimeIff(p);
      Row2(p);
    } else if p < 97 {
      PrimeIff(p);
      Row3(p);
    } else if p < 137 {
      PrimeIff(p);
      Row4(p);
    } else if p < 179 {
      PrimeIff(p);
      Row5(p);
    } else if p < 227 {
      PrimeIff(p);
      Row6(p);
    } else if p < 269 {
      PrimeIff(p);
      Row7(p);
    } else {
      PrimeIff(p);
      Row8(p);
    }
  }

  /** These are the first 64 primes, in order. */
  lemma PrimesAreFirst()
    ensures |PRIMES| == 64 && IsPrimeTable(PRIMES)
  {
    assert PRIMES[63] == 311;
    forall i, j | 0 <= i < j < |PRIMES| ensures PRIMES[i] < PRIMES[j] {
      Ordered(i, j);
    }
    forall p ensures p in PRIMES <==> IsPrime(p) && p <= 311 {
      if p in PRIMES { ListedIsPrime(p); }
      if IsPrime(p) && p <= 311 { ListedPrime(p); }
    }
  }

  // ----- Roots -----

  /** The whole part q and 32 bits behind the point, in units of 2^-32. */
  ghost function Fixed(q: nat, w: Word): nat {
    q * 0x1_0000_0000 + (w.bits as nat)
  }

  ghost predicate IsFloorCubeRoot(x: int, c: nat) {
    c * c * c <= x < (c + 1) * (c + 1) * (c + 1)
  }

  ghost predicate IsFloorSquareRoot(x: int, c: nat) {
    c * c <= x < (c + 1) * (c + 1)
  }

  /** w holds the first 32 bits behind the point of the cube root of p, and q is the whole part. */
  ghost predicate CubeRootIs(p: int, q: nat, w: Word) {
    IsFloorCubeRoot(p * 0x1_0000_0000_0000_0000_0000_0000, Fixed(q, w))
  }

  ghost predicate SquareRootIs(p: int, q: nat, w: Word) {
    IsFloorSquareRoot(p * 0x1_0000_0000_0000_0000, Fixed(q, w))
  }

  ghost predicate IsCubeFraction(p: int, w: Word) {
    exists q :: CubeRootIs(p, q, w)
  }

  ghost predicate IsSquareFraction(p: int, w: Word) {
    exists q :: SquareRootIs(p, q, w)
  }

  lemma CubeRoots1()
    ensures |PRIMES| == |K| == 64 && forall i | 0 <= i < 8 :: IsCubeFraction(PRIMES[i], K[i])
  {
    assert CubeRootIs(PRIMES[0], 1, K[0]);
    assert CubeRootIs(PRIMES[1], 1, K[1]);
    assert CubeRootIs(PRIMES[2], 1, K[2]);
    assert CubeRootIs(PRIMES[3], 1, K[3]);
    assert CubeRootIs(PRIMES[4], 2, K[4]);
    assert CubeRootIs(PRIMES[5], 2, K[5]);
    assert CubeRootIs(PRIMES[6], 2, K[6]);
    assert CubeRootIs(PRIMES[7], 2, K[7]);
  }

  lemma CubeRoots2()
    ensures |PRIMES| == |K| == 64 && forall i | 8 <= i < 16 :: IsCubeFraction(PRIMES[i], K[i])
  {
    assert CubeRootIs(PRIMES[8], 2, K[8]);
    assert CubeRootIs(PRIMES[9], 3, K[9]);
    assert CubeRootIs(PRIMES[10], 3, K[10]);
    assert CubeRootIs(PRIMES[11], 3, K[11]);
    assert CubeRootIs(PRIMES[12], 3, K[12]);
    assert CubeRootIs(PRIMES[13], 3, K[13]);
    assert CubeRootIs(PRIMES[14], 3, K[14]);
    assert CubeRootIs(PRIMES[15], 3, K[15]);
  }

  lemma CubeRoots3()
    ensures |PRIMES| == |K| == 64 && forall i | 16 <= i < 24 :: IsCubeFraction(PRIMES[i], K[i])
  {
    assert CubeRootIs(PRIMES[16], 3, K[16]);
    assert CubeRootIs(PRIMES[17], 3, K[17]);
    assert CubeRootIs(PRIMES[18], 4, K[18]);
    assert CubeRootIs(PRIMES[19], 4, K[19]);
    assert CubeRootIs(PRIMES[20], 4, K[20]);
    assert CubeRootIs(PRIMES[21], 4, K[21]);
    assert CubeRootIs(PRIMES[22], 4, K[22]);
    assert CubeRootIs(PRIMES[23], 4, K[23]);
  }

  lemma CubeRoots4()
    ensures |PRIMES| == |K| == 64 && forall i | 24 <= i < 32 :: IsCubeFraction(PRIMES[i], K[i])
  {
    assert CubeRootIs(PRIMES[24], 4, K[24]);
    assert CubeRootIs(PRIMES[25], 4, K[25]);
    assert CubeRootIs(PRIMES[26], 4, K[26]);
    assert CubeRootIs(PRIMES[27], 4, K[27]);
    assert CubeRootIs(PRIMES[28], 4, K[28]);
    assert CubeRootIs(PRIMES[29], 4, K[29]);
    assert CubeRootIs(PRIMES[30], 5, K[30]);
    assert CubeRootIs(PRIMES[31], 5, K[31]);
  }

  lemma CubeRoots5()
    ensures |PRIMES| == |K| == 64 && forall i | 32 <= i < 40 :: IsCubeFraction(PRIMES[i], K[i])
  {
    assert CubeRootIs(PRIMES[32], 5, K[32]);
    assert CubeRootIs(PRIMES[33], 5, K[33]);
    assert CubeRootIs(PRIMES[34], 5, K[34]);
    assert CubeRootIs(PRIMES[35], 5, K[35]);
    assert CubeRootIs(PRIMES[36], 5, K[36]);
    assert CubeRootIs(PRIMES[37], 5, K[37]);
    assert CubeRootIs(PRIMES[38], 5, K[38]);
    assert CubeRootIs(PRIMES[39], 5, K[39]);
  }

  lemma CubeRoots6()
    ensures |PRIMES| == |K| == 64 && forall i | 40 <= i < 48 :: IsCubeFraction(PRIMES[i], K[i])
  {
    assert CubeRootIs(PRIMES[40], 5, K[40]);
    assert CubeRootIs(PRIMES[41], 5, K[41]);
    assert CubeRootIs(PRIMES[42], 5, K[42]);
    assert CubeRootIs(PRIMES[43], 5, K[43]);
    assert CubeRootIs(PRIMES[44], 5, K[44]);
    assert CubeRootIs(PRIMES[45], 5, K[45]);
    assert CubeRootIs(PRIMES[46], 5, K[46]);
    assert CubeRootIs(PRIMES[47], 6, K[47]);
  }

  lemma CubeRoots7()
    ensures |PRIMES| == |K| == 64 && forall i | 48 <= i < 56 :: IsCubeFraction(PRIMES[i], K[i])
  {
    assert CubeRootIs(PRIMES[48], 6, K[48]);
    assert CubeRootIs(PRIMES[49], 6, K[49]);
    assert CubeRootIs(PRIMES[50], 6, K[50]);
    assert CubeRootIs(PRIMES[51], 6, K[51]);
    assert CubeRootIs(PRIMES[52], 6, K[52]);
    assert CubeRootIs(PRIMES[53], 6, K[53]);
    assert CubeRootIs(PRIMES[54], 6, K[54]);
    assert CubeRootIs(PRIMES[55], 6, K[55]);
  }

  lemma CubeRoots8()
    ensures |PRIMES| == |K| == 64 && forall i | 56 <= i < 64 :: IsCubeFraction(PRIMES[i], K[i])
  {
    assert CubeRootIs(PRIMES[56], 6, K[56]);
    assert CubeRootIs(PRIMES[57], 6, K[57]);
    assert CubeRootIs(PRIMES[58], 6, K[58]);
    assert CubeRootIs(PRIMES[59], 6, K[59]);
    assert CubeRootIs(PRIMES[60], 6, K[60]);
    assert CubeRootIs(PRIMES[61], 6, K[61]);
    assert CubeRootIs(PRIMES[62], 6, K[62]);
    assert CubeRootIs(PRIMES[63], 6, K[63]);
  }

  lemma SquareRoots()
    ensures |PRIMES| == 64 && IsSquareFraction(PRIMES[0], H0.a) && IsSquareFraction(PRIMES[1], H0.b)
    ensures IsSquareFraction(PRIMES[2], H0.c) && IsSquareFraction(PRIMES[3], H0.d)
    ensures IsSquareFraction(PRIMES[4], H0.e) && IsSquareFraction(PRIMES[5], H0.f)
    ensures IsSquareFraction(PRIMES[6], H0.g) && IsSquareFraction(PRIMES[7], H0.h)
  {
    assert SquareRootIs(PRIMES[0], 1, H0.a) && SquareRootIs(PRIMES[1], 1, H0.b);
    assert SquareRootIs(PRIMES[2], 2, H0.c) && SquareRootIs(PRIMES[3], 2, H0.d);
    assert SquareRootIs(PRIMES[4], 3, H0.e) && SquareRootIs(PRIMES[5], 3, H0.f);
    assert SquareRootIs(PRIMES[6], 4, H0.g) && SquareRootIs(PRIMES[7], 4, H0.h);
  }

  /** The round constants are the cube roots of the first 64 primes, the first hash value is the square roots of the
      first eight: in each case the first 32 bits behind the point. */
  lemma ConstantsAreRoots()
    ensures |PRIMES| == |K| == 64 && IsPrimeTable(PRIMES)
    ensures forall i | 0 <= i < 64 :: IsCubeFraction(PRIMES[i], K[i])
    ensures forall i | 0 <= i < 8 :: IsSquareFraction(PRIMES[i], WordsOf(H0)[i])
  {
    PrimesAreFirst();
    CubeRoots1();
    CubeRoots2();
    CubeRoots3();
    CubeRoots4();
    CubeRoots5();
    CubeRoots6();
    CubeRoots7();
    CubeRoots8();
    SquareRoots();
  }

  lemma ProductsGrow(x: int, y: int)
    requires 0 <= x < y
    ensures (x + 1) * (x + 1) <= y * y && (x + 1) * (x + 1) * (x + 1) <= y * y * y
  {
    ProductAtLeast(x + 1, x + 1, y, y);
    ProductAtLeast((x + 1) * (x + 1), x + 1, y * y, y);
  }

  lemma SameFraction(q: nat, w: Word, q': nat, w': Word)
    requires Fixed(q, w) == Fixed(q', w')
    ensures w == w'
  {
    var x, y := w.bits as nat, w'.bits as nat;
    var n := 0x1_0000_0000 * q + x;
    ModuloUnique(n, 0x1_0000_0000, q, x);
    ModuloUnique(n, 0x1_0000_0000, q', y);
    SameBits(w.bits, w'.bits);
  }

  lemma SameCubeRoot(x: int, c: nat, d: nat)
    requires IsFloorCubeRoot(x, c) && IsFloorCubeRoot(x, d)
    ensures c == d
  {
    if c < d { ProductsGrow(c, d); }
    if d < c { ProductsGrow(d, c); }
  }

  lemma SameSquareRoot(x: int, c: nat, d: nat)
    requires IsFloorSquareRoot(x, c) && IsFloorSquareRoot(x, d)
    ensures c == d
  {
    if c < d { ProductsGrow(c, d); }
    if d < c { ProductsGrow(d, c); }
  }

  /** No other word would do. */
  lemma FractionsAreUnique(p: int, w: Word, w': Word)
    requires (IsCubeFraction(p, w) && IsCubeFraction(p, w')) || (IsSquareFraction(p, w) && IsSquareFraction(p, w'))
    ensures w == w'
  {
    if IsCubeFraction(p, w) && IsCubeFraction(p, w') {
      var q: nat, q': nat :| CubeRootIs(p, q, w) && CubeRootIs(p, q', w');
      SameCubeRoot(p * 0x1_0000_0000_0000_0000_0000_0000, Fixed(q, w), Fixed(q', w'));
      SameFraction(q, w, q', w');
    } else {
      var q: nat, q': nat :| SquareRootIs(p, q, w) && SquareRootIs(p, q', w');
      SameSquareRoot(p * 0x1_0000_0000_0000_0000, Fixed(q, w), Fixed(q', w'));
      SameFraction(q, w, q', w');
    }
  }
}
