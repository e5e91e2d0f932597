/** The mod-30 wheel (cpp/tests/prime.cc) against the plain odd scan. u64 values are exact integers and
    sqrt is the floor square root. */
module Wheel {
  import opened Masks
  import opened NumberTheory

  /** The least divisor above 1, with the answers both scans give for 0 and 1. */
  ghost predicate IsFirstDivisor(n: nat, r: nat) {
    if n >= 2 then IsLeastDivisor(n, r) else r == 2 - n
  }

  lemma FirstDivisorUnique(n: nat, r: nat, r': nat)
    requires IsFirstDivisor(n, r) && IsFirstDivisor(n, r')
    ensures r == r'
  {
    if n >= 2 { LeastDivisorUnique(n, r, r'); }
  }

  /** The plain scan: 2, then the odd numbers up to the square root. */
  method FirstDivisor0(n: nat) returns (r: nat)
    ensures IsFirstDivisor(n, r)
  {
    if n % 2 == 0 { return 2; }
    var i := 3;
    while i <= FloorSqrt(n)
      invariant i >= 3 && i % 2 == 1 && NoDivisorBelow(n, i)
      decreases FloorSqrt(n) - i
    {
      if n % i == 0 {
        DivisorAtMost(n, i);
        return i;
      }
      OddStep(n, i);
      i := i + 2;
    }
    NothingFound(n, i);
    return n;
  }

  lemma OddStep(n: int, i: int)
    requires n % 2 != 0 && i >= 3 && i % 2 == 1 && NoDivisorBelow(n, i) && n % i != 0
    ensures NoDivisorBelow(n, i + 2)
  {
    if n % (i + 1) == 0 { DivisorsCompose(n, i + 1, 2); }
  }

  lemma NothingFound(n: nat, i: nat)
    requires n > 0 && NoDivisorBelow(n, i) && i > FloorSqrt(n)
    ensures IsFirstDivisor(n, n)
  {
    if n >= 2 {
      BelowFloorSqrt(n, i);
      NoDivisorToRoot(n, i);
    }
  }

  /** n has no factor 2, 3 or 5. */
  ghost predicate OffWheel(n: int) {
    n % 2 != 0 && n % 3 != 0 && n % 5 != 0
  }

  ghost predicate NoDivisorBetween(n: int, lo: int, hi: int) {
    forall d | lo <= d < hi && d > 0 :: n % d != 0
  }

  /** From one spoke to the next: every number in between has a factor 2, 3 or 5, which n lacks. */
  lemma NextSpoke(n: int, lo: int, j: int, k: int)
    requires OffWheel(n) && lo > 0 && NoDivisorBetween(n, lo, j) && j > 0 && n % j != 0 && j < k
    requires forall d | j < d < k :: d % 2 == 0 || d % 3 == 0 || d % 5 == 0
    ensures NoDivisorBetween(n, lo, k)
  {
    forall d | lo <= d < k && d > 0 ensures n % d != 0 {
      if j < d && n % d == 0 {
        if d % 2 == 0 { DivisorsCompose(n, d, 2); }
        if d % 3 == 0 { DivisorsCompose(n, d, 3); }
        if d % 5 == 0 { DivisorsCompose(n, d, 5); }
      }
    }
  }

  /** The distance of spoke t from the start of a turn; the turn ends at 30. */
  function Spoke(t: nat): nat
    requires t <= 8
  {
    match t
    case 0 => 0
    case 1 => 4
    case 2 => 6
    case 3 => 10
    case 4 => 12
    case 5 => 16
    case 6 => 22
    case 7 => 24
    case 8 => 30
  }

  /** The first t spokes of the turn at i do not divide n. */
  ghost predicate TurnPasses(n: int, i: int, t: nat)
    requires i > 0 && t <= 8
  {
    forall u: nat | u < t :: n % (i + Spoke(u)) != 0
  }

  /** No spoke of the first q turns from min on divides n. */
  ghost predicate TurnsPass(n: int, min: int, q: nat)
    requires min > 0
  {
    forall p: nat | p < q :: TurnPasses(n, min + 30 * p, 8)
  }

  /** j is spoke t of the turn at i, the first that divides n. */
  ghost predicate StopsAt(n: int, i: int, t: nat, j: int)
    requires i > 0
  {
    t < 8 && TurnPasses(n, i, t) && j == i + Spoke(t) && n % j == 0
  }

  ghost predicate TurnFinds(n: int, i: int, j: int)
    requires i > 0
  {
    exists t: nat :: StopsAt(n, i, t, j)
  }

  /** One turn: the first of the eight spokes from i on that divides n, if there is one. */
  method Turn(n: nat, i: nat) returns (found: bool, j: nat)
    requires i > 0
    ensures found ==> TurnFinds(n, i, j)
    ensures !found ==> TurnPasses(n, i, 8)
  {
    ghost var t := 0;
    j := i;
    found := n % j == 0;
    if !found { t, j := 1, j + 4; found := n % j == 0; }
    if !found { t, j := 2, j + 2; found := n % j == 0; }
    if !found { t, j := 3, j + 4; found := n % j == 0; }
    if !found { t, j := 4, j + 2; found := n % j == 0; }
    if !found { t, j := 5, j + 4; found := n % j == 0; }
    if !found { t, j := 6, j + 6; found := n % j == 0; }
    if !found { t, j := 7, j + 2; found := n % j == 0; }
    assert found ==> StopsAt(n, i, t, j);
  }

  /** r is the first spoke that divides n, in turn q, which starts by max. */
  ghost predicate FoundInTurn(n: int, min: int, max: int, r: int, q: nat)
    requires min > 0
  {
    TurnsPass(n, min, q) && min + 30 * q <= max && TurnFinds(n, min + 30 * q, r)
  }

  /** All q turns that start by max passed, and r is n. */
  ghost predicate PassedTurns(n: int, min: int, max: int, r: int, q: nat)
    requires min > 0
  {
    TurnsPass(n, min, q) && min + 30 * q > max && r == n
  }

  /** The result of a spiral: the first spoke that divides n in the turns that start by max, or n when there is none. */
  ghost predicate SpiralResult(n: int, min: int, max: int, r: int)
    requires min > 0
  {
    exists q: nat :: FoundInTurn(n, min, max, r, q) || PassedTurns(n, min, max, r, q)
  }

  /** Turn by turn from min on, until max is passed. */
  method Spiral(n: nat, min: nat, max: nat) returns (r: nat)
    requires min > 0
    ensures SpiralResult(n, min, max, r)
  {
    ghost var q := 0;
    var i := min;
    while i <= max
      invariant i == min + 30 * q && TurnsPass(n, min, q)
      decreases max - i
    {
      var found, j := Turn(n, i);
      if found {
        assert FoundInTurn(n, min, max, j, q);
        return j;
      }
      i, q := i + 30, q + 1;
    }
    assert PassedTurns(n, min, max, n, q);
    return n;
  }

  /** For an n without a factor 2, 3 or 5 and a start on the wheel: a divisor returned is the least one from min on,
      even past max, and n means that nothing up to max divides n but n itself. */
  lemma SpiralIsNext(n: nat, min: nat, max: nat, r: nat)
    requires n > 0 && OffWheel(n) && min % 30 == 7 && SpiralResult(n, min, max, r)
    ensures r == n || IsNextDivisor(n, min, r)
    ensures r == n ==> forall d | min <= d <= max && d != n :: n % d != 0
  {
    var q: nat :| FoundInTurn(n, min, max, r, q) || PassedTurns(n, min, max, r, q);
    if FoundInTurn(n, min, max, r, q) {
      FoundIsNext(n, min, max, r, q);
    } else {
      TurnsClear(n, min, q);
    }
  }

  lemma FoundIsNext(n: nat, min: nat, max: nat, r: nat, q: nat)
    requires n > 0 && OffWheel(n) && min % 30 == 7 && FoundInTurn(n, min, max, r, q)
    ensures IsNextDivisor(n, min, r)
    ensures r == n ==> forall d | min <= d <= max && d != n :: n % d != 0
  {
    var i := min + 30 * q;
    var t: nat :| StopsAt(n, i, t, r);
    SpiralStops(n, min, max, q, t);
  }

  /** A spoke that does not divide n clears the way to the next one. */
  lemma {:induction false} TurnClears(n: int, min: int, i: int, t: nat)
    requires t <= 8 && OffWheel(n) && 0 < min <= i && i % 30 == 7 && NoDivisorBetween(n, min, i) && TurnPasses(n, i, t)
    ensures NoDivisorBetween(n, min, i + Spoke(t))
    decreases t
  {
    if t > 0 {
      TurnClears(n, min, i, t - 1);
      BetweenSpokes(i, t);
      NextSpoke(n, min, i + Spoke(t - 1), i + Spoke(t));
    }
  }

  lemma {:induction false} TurnsClear(n: int, min: int, q: nat)
    requires OffWheel(n) && min > 0 && min % 30 == 7 && TurnsPass(n, min, q)
    ensures NoDivisorBetween(n, min, min + 30 * q)
    decreases q
  {
    if q > 0 {
      TurnsClear(n, min, q - 1);
      ModShift(min, 30, q - 1);
      TurnClears(n, min, min + 30 * (q - 1), 8);
    }
  }

  /** Every number between two spokes of a turn has a factor 2, 3 or 5. */
  lemma BetweenSpokes(i: int, t: nat)
    requires 0 < t <= 8 && i % 30 == 7
    ensures forall d | Spoke(t - 1) < d - i < Spoke(t) :: d % 2 == 0 || d % 3 == 0 || d % 5 == 0
  {
    var q := i / 30;
    forall d | Spoke(t - 1) < d - i < Spoke(t) ensures d % 2 == 0 || d % 3 == 0 || d % 5 == 0 {
      var c := d - 30 * q;
      ModShift(c, 2, 15 * q);
      ModShift(c, 3, 10 * q);
      ModShift(c, 5, 6 * q);
      OffSpoke(c, t);
    }
  }

  lemma OffSpoke(c: int, t: nat)
    requires 0 < t <= 8 && Spoke(t - 1) < c - 7 < Spoke(t)
    ensures c % 2 == 0 || c % 3 == 0 || c % 5 == 0
  {
  }

  /** r is the least divisor of n from lo on. */
  ghost predicate IsNextDivisor(n: int, lo: int, r: int) {
    0 < lo <= r && n % r == 0 && NoDivisorBetween(n, lo, r)
  }

  /** Stopping at spoke t of turn q; if that is n itself, no other number up to max divides n. */
  lemma SpiralStops(n: nat, min: nat, max: nat, q: nat, t: nat)
    requires n > 0 && OffWheel(n) && min > 0 && min % 30 == 7 && t < 8
    requires TurnsPass(n, min, q) && TurnPasses(n, min + 30 * q, t) && n % (min + 30 * q + Spoke(t)) == 0
    ensures IsNextDivisor(n, min, min + 30 * q + Spoke(t))
    ensures min + 30 * q + Spoke(t) == n ==> forall d | min <= d <= max && d != n :: n % d != 0
  {
    TurnsClear(n, min, q);
    ModShift(min, 30, q);
    TurnClears(n, min, min + 30 * q, t);
    forall d | min <= d <= max && d != n && min + 30 * q + Spoke(t) == n ensures n % d != 0 {
      if n % d == 0 { DivisorAtMost(n, d); }
    }
  }

  /** The first number past the turns from 7 on that start by max. */
  function Reach(max: nat): nat {
    if max < 7 then 7 else 37 + 30 * ((max - 7) / 30)
  }

  lemma TurnEnds(max: nat, q: nat)
    ensures 7 + 30 * q <= max <==> 37 + 30 * q <= Reach(max)
  {
  }

  lemma FoundBelow(n: nat, max: nat, r: nat, q: nat)
    requires n > 0 && FoundInTurn(n, 7, max, r, q)
    ensures 7 <= r <= n && r < Reach(max) && n % r == 0
  {
    var t: nat :| StopsAt(n, 7 + 30 * q, t, r);
    TurnEnds(max, q);
    DivisorAtMost(n, r);
  }

  /** No number below hi but n divides n. */
  ghost predicate NoOtherBelow(n: nat, hi: nat) {
    forall d | 2 <= d < hi && d < n :: n % d != 0
  }

  lemma ReachesWhenFound(n: nat, max: nat, r: nat, q: nat)
    requires n > 0 && OffWheel(n) && FoundInTurn(n, 7, max, r, q)
    ensures r == n <==> NoOtherBelow(n, Reach(max))
  {
    FoundIsNext(n, 7, max, r, q);
    FoundBelow(n, max, r, q);
    SmallDivisors(n);
  }

  lemma ReachesWhenPassed(n: nat, max: nat, q: nat)
    requires n > 0 && OffWheel(n) && TurnsPass(n, 7, q) && 7 + 30 * q > max
    ensures NoOtherBelow(n, Reach(max))
  {
    TurnEnds(max, q);
    TurnsClear(n, 7, q);
    SmallDivisors(n);
  }

  /** A spiral returns n exactly when no other number up to the end of its last turn divides n. */
  lemma SpiralReaches(n: nat, max: nat, r: nat)
    requires n > 0 && OffWheel(n) && SpiralResult(n, 7, max, r)
    ensures r == n <==> NoOtherBelow(n, Reach(max))
  {
    var q: nat :| FoundInTurn(n, 7, max, r, q) || PassedTurns(n, 7, max, r, q);
    if FoundInTurn(n, 7, max, r, q) { ReachesWhenFound(n, max, r, q); } else { ReachesWhenPassed(n, max, q); }
  }

  /** The wheel's answer is the plain scan's answer; `limit` 0 means no limit.  With a limit below the root it is n when
      nothing below the end of the last turn divides n, and only then. */
  method SpiralDivisor(n: nat, limit: nat := 0) returns (r: nat)
    ensures limit == 0 || limit >= FloorSqrt(n) ==> IsFirstDivisor(n, r)
    ensures n >= 2 ==> IsLeastDivisor(n, r) || (r == n && forall d | 2 <= d <= limit && d != n :: n % d != 0)
    ensures n >= 2 && !OffWheel(n) ==> IsLeastDivisor(n, r)
    ensures OffWheel(n) && 0 < limit < FloorSqrt(n) ==> (r == n <==> NoOtherBelow(n, Reach(limit)))
  {
    if n % 2 == 0 { return 2; }
    if n % 3 == 0 { LeastOfFirst(n, 3); return 3; }
    if n % 5 == 0 { LeastOfFirst(n, 5); return 5; }
    var lim := if limit == 0 then n else limit;
    var root := FloorSqrt(n);
    lim := if lim < root then lim else root;
    r := Spiral(n, 7, lim);
    AfterSpiral(n, root, lim, r);
  }

  lemma AfterSpiral(n: nat, root: nat, lim: nat, r: nat)
    requires n > 0 && OffWheel(n) && root == FloorSqrt(n) && lim <= root && SpiralResult(n, 7, lim, r)
    ensures lim == root ==> IsFirstDivisor(n, r)
    ensures n >= 2 ==> IsLeastDivisor(n, r) || (r == n && forall d | 2 <= d <= lim && d != n :: n % d != 0)
    ensures r == n <==> NoOtherBelow(n, Reach(lim))
  {
    SpiralReaches(n, lim, r);
    SpiralIsNext(n, 7, lim, r);
    SmallDivisors(n);
    BelowFloorSqrt(n, 2);
    if n >= 2 { SpiralIsLeast(n, root, lim, r); } else { NothingDividesOne(r); }
  }

  lemma NothingDividesOne(r: nat)
    requires r == 1 || IsNextDivisor(1, 7, r)
    ensures r == 1
  {
    if r != 1 { ModuloUnique(1, r, 0, 1); }
  }

  /** The wheel against the plain scan. */
  method BothScans(n: nat) returns (wheel: nat, plain: nat)
    ensures wheel == plain && IsFirstDivisor(n, plain)
  {
    wheel := SpiralDivisor(n);
    plain := FirstDivisor0(n);
    FirstDivisorUnique(n, wheel, plain);
  }

  lemma LeastOfFirst(n: nat, d: nat)
    requires n % 2 != 0 && (d == 3 || (d == 5 && n % 3 != 0)) && n % d == 0
    ensures IsLeastDivisor(n, d)
  {
    if n % 4 == 0 { DivisorsCompose(n, 4, 2); }
    DivisorAtMost(n, d);
  }

  lemma SmallDivisors(n: nat)
    requires OffWheel(n)
    ensures NoDivisorBelow(n, 7)
  {
    forall d | 2 <= d < 7 ensures n % d != 0 {
      if n % d == 0 && d % 2 == 0 { DivisorsCompose(n, d, 2); }
    }
  }

  /** A divisor found below n is the least; n itself is returned when the limit was reached first, and
      with the limit at the square root that means that n is prime. */
  lemma SpiralIsLeast(n: nat, root: nat, lim: nat, r: nat)
    requires n >= 2 && NoDivisorBelow(n, 7) && root == FloorSqrt(n) && lim <= root
    requires r == n || IsNextDivisor(n, 7, r)
    requires r == n ==> forall d | 7 <= d <= lim && d != n :: n % d != 0
    ensures lim == root ==> IsLeastDivisor(n, r)
    ensures IsLeastDivisor(n, r) || (r == n && forall d | 2 <= d <= lim && d != n :: n % d != 0)
  {
    if r == n && lim == root {
      forall d | 2 <= d < n ensures n % d != 0 {
        if n % d == 0 {
          var e := LeastDivisorExists(n);
          LeastDivisorBelowRoot(n, e);
          BelowFloorSqrt(n, e);
        }
      }
    }
    if r < n { DivisorAtMost(n, r); }
    if n % r == 0 { DivisorAtMost(n, r); }
  }
}
