/** Subtraction as BigNumberNaive codes it.  The borrow handed to the next digit is the shortfall itself instead of 1,
    so the difference is exact for some operands only; this module says which. */
module NaiveSubtract {
  import opened NumberTheory
  import opened Limbs

  /** BigDigit::sub, with the borrow as second result: what the digit left lacks to B. */
  function DigitSub(x: Digit, y: Digit): (r: (Digit, Digit))
    ensures r.1 > 0 <==> y > x
    ensures r.1 > 0 ==> r.0 + r.1 == B
    ensures r.0 == x - y + if y > x then B else 0
  {
    ((x - y) % B, if y > x then y - x else 0)
  }

  lemma AboveIsNonNegative(s: seq<Digit>, i: nat)
    requires i <= |s|
    ensures Above(s, i) >= 0
  {
    ValueBounds(s[i..]);
  }

  // ----- What the code computes -----

  /** An exception, or the digits that are left. */
  datatype Outcome = Thrown | Left(digits: seq<Digit>)

  /** d taken from digit i, with the shortfall taken from the next one. */
  function TakeDigit(s: seq<Digit>, d: Digit, i: nat): (r: Outcome)
    ensures r.Left? ==> |r.digits| == |s| && i < |s|
    decreases |s| - i
  {
    if i >= |s| then Thrown else
    var (rest, borrow) := DigitSub(s[i], d);
    if borrow == 0 then Left(s[i := rest]) else TakeDigit(s[i := rest], borrow, i + 1)
  }

  /** What is taken too much: all of a borrow but one unit, at every digit that it reaches. */
  function Excess(s: seq<Digit>, d: Digit, i: nat): (e: int)
    ensures e >= 0
    decreases |s| - i
  {
    if i >= |s| then 0 else
    var (rest, borrow) := DigitSub(s[i], d);
    if borrow == 0 then 0 else
    ExcessIsNonNegative(borrow, i);
    Pow(B, i + 1) * (borrow - 1) + Excess(s[i := rest], borrow, i + 1)
  }

  lemma ExcessIsNonNegative(borrow: int, i: nat)
    requires borrow > 0
    ensures Pow(B, i + 1) * (borrow - 1) >= 0
  {
    PowPositive(B, i + 1);
    NonNegativeProduct(Pow(B, i + 1), borrow - 1);
  }

  lemma {:induction false} TakeDigitValue(s: seq<Digit>, d: Digit, i: nat)
    requires TakeDigit(s, d, i).Left?
    ensures Value(TakeDigit(s, d, i).digits) == Value(s) - Pow(B, i) * d - Excess(s, d, i)
    decreases |s| - i
  {
    var (rest, borrow) := DigitSub(s[i], d);
    ValueSet(s, i, rest);
    if borrow != 0 {
      TakeDigitValue(s[i := rest], borrow, i + 1);
      BorrowAlgebra(Pow(B, i), s[i], d, rest, borrow);
    } else {
      assert Pow(B, i) * (rest - s[i]) == -(Pow(B, i) * d);
    }
  }

  lemma BorrowAlgebra(p: int, x: int, d: int, rest: int, borrow: int)
    requires rest == x - d + B
    ensures p * (rest - x) - (B * p) * borrow == -(p * d) - (B * p) * (borrow - 1)
  {
    assert p * (B - d) == B * p - p * d;
  }

  /** A borrow of 1 is exact and throws only when nothing is left to borrow from; a larger one may take too much, never
      too little. */
  lemma {:induction false} TakeDigitAbove(s: seq<Digit>, d: Digit, i: nat)
    requires i <= |s|
    ensures match TakeDigit(s, d, i)
            case Left(t) =>
              t[..i] == s[..i] && Above(t, i) <= Above(s, i) - d && (d <= 1 ==> Above(t, i) == Above(s, i) - d)
            case Thrown => d <= 1 ==> Above(s, i) == 0 && (d == 1 || i == |s|)
    decreases |s| - i
  {
    if i < |s| {
      var (rest, borrow) := DigitSub(s[i], d);
      var t := s[i := rest];
      AboveStep(s, i);
      AboveStep(t, i);
      assert t[i + 1..] == s[i + 1..] && t[..i] == s[..i];
      AboveIsNonNegative(s, i + 1);
      if borrow != 0 {
        TakeDigitAbove(t, borrow, i + 1);
        if TakeDigit(t, borrow, i + 1).Left? { DigitKept(t, TakeDigit(t, borrow, i + 1).digits, i); }
      }
    } else {
      assert s[i..] == [];
    }
  }

  lemma DigitKept(t: seq<Digit>, u: seq<Digit>, i: nat)
    requires i < |t| == |u| && u[..i + 1] == t[..i + 1]
    ensures u[..i] == t[..i] && u[i] == t[i] && Above(u, i) == t[i] + B * Above(u, i + 1)
  {
    assert u[..i] == u[..i + 1][..i] && t[..i] == t[..i + 1][..i];
    assert u[i] == u[..i + 1][i] && t[i] == t[..i + 1][i];
    AboveStep(u, i);
  }

  /** The first i digits of b, taken one after another. */
  function TakeFirst(s: seq<Digit>, b: seq<Digit>, i: nat): (r: Outcome)
    requires i <= |b|
    ensures r.Left? ==> |r.digits| == |s| && i <= |s|
  {
    if i == 0 then Left(s) else
    match TakeFirst(s, b, i - 1)
    case Thrown => Thrown
    case Left(t) => TakeDigit(t, b[i - 1], i - 1)
  }

  function ExcessFirst(s: seq<Digit>, b: seq<Digit>, i: nat): (e: int)
    requires i <= |b|
    ensures e >= 0
  {
    if i == 0 then 0 else
    match TakeFirst(s, b, i - 1)
    case Thrown => 0
    case Left(t) => ExcessFirst(s, b, i - 1) + Excess(t, b[i - 1], i - 1)
  }

  function Taken(s: seq<Digit>, b: seq<Digit>): (r: Outcome)
    ensures r.Left? ==> |r.digits| == |s| && |b| <= |s|
  {
    TakeFirst(s, b, |b|)
  }

  /** By how much the difference is missed. */
  function Loss(s: seq<Digit>, b: seq<Digit>): (e: int)
    ensures e >= 0
  {
    ExcessFirst(s, b, |b|)
  }

  lemma {:induction false} TakeFirstValue(s: seq<Digit>, b: seq<Digit>, i: nat)
    requires i <= |b| && TakeFirst(s, b, i).Left?
    ensures Value(TakeFirst(s, b, i).digits) == Value(s) - Value(b[..i]) - ExcessFirst(s, b, i)
    decreases i
  {
    if i > 0 {
      var was := TakeFirst(s, b, i - 1).digits;
      TakeFirstValue(s, b, i - 1);
      assert TakeFirst(s, b, i) == TakeDigit(was, b[i - 1], i - 1);
      TakeDigitValue(was, b[i - 1], i - 1);
      ValueTake(b, i - 1);
    }
  }

  // ----- The digits that are left, from the digits of the operands -----

  /** The sum of the digits from i up to, not including, j. */
  function SumOfDigits(s: seq<Digit>, i: nat, j: nat): (sum: int)
    requires j <= |s|
    ensures sum >= 0
    decreases j - i
  {
    if i >= j then 0 else s[i] + SumOfDigits(s, i + 1, j)
  }

  /** What d taken at digit i still wants from digit j: d less the digits in between, if these do not cover it. */
  function Wanted(s: seq<Digit>, d: Digit, i: nat, j: nat): (w: int)
    requires i <= j <= |s|
    ensures w >= 0
  {
    var w := d - SumOfDigits(s, i, j);
    if w > 0 then w else 0
  }

  lemma {:induction false} SameSum(s: seq<Digit>, t: seq<Digit>, i: nat, j: nat)
    requires j <= |s| == |t| && forall k | i <= k < j :: t[k] == s[k]
    ensures SumOfDigits(t, i, j) == SumOfDigits(s, i, j)
    decreases j - i
  {
    if i < j { SameSum(s, t, i + 1, j); }
  }

  /** What digit i lacks is wanted from the digits above it. */
  lemma WantedNext(s: seq<Digit>, d: Digit, i: nat, j: nat)
    requires i < j <= |s|
    ensures var (rest, borrow) := DigitSub(s[i], d);
            Wanted(s, d, i, j) == if borrow > 0 then Wanted(s[i := rest], borrow, i + 1, j) else 0
  {
    SameSum(s, s[i := DigitSub(s[i], d).0], i + 1, j);
  }

  /** One digit taken throws exactly when all digits from there on add up to less. */
  lemma {:induction false} ThrowsIff(s: seq<Digit>, d: Digit, i: nat)
    ensures TakeDigit(s, d, i).Thrown? <==> i >= |s| || d > SumOfDigits(s, i, |s|)
    decreases |s| - i
  {
    if i < |s| {
      var (rest, borrow) := DigitSub(s[i], d);
      WantedNext(s, d, i, |s|);
      if borrow != 0 { ThrowsIff(s[i := rest], borrow, i + 1); }
    }
  }

  /** Otherwise every digit from there on gives what is wanted of it; B is added where it does not have that much. */
  lemma {:induction false} DigitLeft(s: seq<Digit>, d: Digit, i: nat, k: nat)
    requires TakeDigit(s, d, i).Left? && k < |s|
    ensures TakeDigit(s, d, i).digits[k] ==
            if k < i then s[k] else s[k] - Wanted(s, d, i, k) + if Wanted(s, d, i, k + 1) > 0 then B else 0
    decreases |s| - i
  {
    var (rest, borrow) := DigitSub(s[i], d);
    var t := s[i := rest];
    if borrow != 0 { DigitLeft(t, borrow, i + 1, k); }
    if k >= i {
      WantedNext(s, d, i, k + 1);
      if k > i {
        WantedNext(s, d, i, k);
        assert t[k] == s[k];
      } else {
        assert Wanted(s, d, i, i) == d;
        assert borrow != 0 ==> Wanted(t, borrow, i + 1, i + 1) == borrow;
      }
    }
  }

  /** What digit i is short of after the lower digits of b were taken from those of a, each shortfall being taken from
      the next digit. */
  function Short(a: seq<Digit>, b: seq<Digit>, i: nat): (w: int)
    requires i <= |a| && i <= |b|
    ensures w >= 0
  {
    if i == 0 then 0 else
    var w := b[i - 1] + Short(a, b, i - 1) - a[i - 1];
    if w > 0 then w else 0
  }

  /** Every digit has what the shortfall of the digit below takes from it. */
  ghost predicate NextCanGive(a: seq<Digit>, b: seq<Digit>) {
    |b| <= |a| && forall i | 0 <= i <= |b| :: Short(a, b, i) <= if i < |a| then a[i] else 0
  }

  /** What the shortfalls below digit i take too much. */
  function Overtaken(a: seq<Digit>, b: seq<Digit>, i: nat): int
    requires i <= |a| && i <= |b|
  {
    if i == 0 then 0 else
    Overtaken(a, b, i - 1) + if Short(a, b, i) > 0 then Pow(B, i) * (Short(a, b, i) - 1) else 0
  }

  /** The digits after the first i of b were taken: those below i are done, and digit i has given what it owes. */
  ghost predicate Given(a: seq<Digit>, b: seq<Digit>, now: seq<Digit>, i: nat)
    requires i <= |a| && i <= |b|
  {
    && |now| == |a| && (i < |a| ==> now[i] == a[i] - Short(a, b, i))
    && (forall k {:trigger now[k]} | 0 <= k < i ::
          now[k] == a[k] - Short(a, b, k) - b[k] + if Short(a, b, k + 1) > 0 then B else 0)
    && (forall k | i < k < |a| :: now[k] == a[k])
  }

  lemma GivenStep(a: seq<Digit>, b: seq<Digit>, was: seq<Digit>, i: nat)
    requires i < |b| <= |a| && Given(a, b, was, i)
    requires Short(a, b, i) <= a[i] && Short(a, b, i + 1) <= if i + 1 < |a| then a[i + 1] else 0
    ensures TakeDigit(was, b[i], i).Left? && Given(a, b, TakeDigit(was, b[i], i).digits, i + 1)
    ensures Excess(was, b[i], i) ==
            if Short(a, b, i + 1) > 0 then Pow(B, i + 1) * (Short(a, b, i + 1) - 1) else 0
  {
    var (rest, borrow) := DigitSub(was[i], b[i]);
    assert borrow == Short(a, b, i + 1);
    if borrow > 0 {
      var t := was[i := rest];
      assert TakeDigit(t, borrow, i + 1) == Left(t[i + 1 := a[i + 1] - borrow]);
      assert Excess(t, borrow, i + 1) == 0;
    }
  }

  lemma {:induction false} GivenFirst(a: seq<Digit>, b: seq<Digit>, i: nat)
    requires NextCanGive(a, b) && i <= |b|
    ensures TakeFirst(a, b, i).Left? && Given(a, b, TakeFirst(a, b, i).digits, i)
    ensures ExcessFirst(a, b, i) == Overtaken(a, b, i)
    decreases i
  {
    if i > 0 {
      GivenFirst(a, b, i - 1);
      var was := TakeFirst(a, b, i - 1).digits;
      GivenStep(a, b, was, i - 1);
    }
  }

  /** When every digit has what the shortfall below takes from it, this is the outcome, digit by digit, and by how much
      it misses the difference. */
  lemma TakenByDigits(a: seq<Digit>, b: seq<Digit>)
    requires NextCanGive(a, b)
    ensures Taken(a, b).Left? && Given(a, b, Taken(a, b).digits, |b|)
    ensures Value(Taken(a, b).digits) == Value(a) - Value(b) - Overtaken(a, b, |b|)
  {
    GivenFirst(a, b, |b|);
    TakeFirstValue(a, b, |b|);
    assert b[..|b|] == b;
  }

  /** Digit i of b exceeds that of a by `lack`, no other digit does, and the next one has that much left. */
  ghost predicate ShortAt(a: seq<Digit>, b: seq<Digit>, i: nat, lack: Digit) {
    && i < |b| <= |a| && i + 1 < |a| && b[i] as int == a[i] + lack && lack > 0
    && forall k | 0 <= k < |a| && k != i :: (if k < |b| then b[k] else 0) + (if k == i + 1 then lack else 0) <= a[k]
  }

  lemma {:induction false} ShortOnce(a: seq<Digit>, b: seq<Digit>, i: nat, lack: Digit, n: nat)
    requires ShortAt(a, b, i, lack) && n <= |b|
    ensures Short(a, b, n) == if n == i + 1 then lack else 0
    ensures Overtaken(a, b, n) == if n > i then Pow(B, i + 1) * (lack - 1) else 0
    decreases n
  {
    if n > 0 { ShortOnce(a, b, i, lack, n - 1); }
  }

  /** When a single digit falls short and the next one can give what it lacks, one unit of that one would have been
      right; all that it lacks is taken. */
  lemma OneShortfall(a: seq<Digit>, b: seq<Digit>, i: nat, lack: Digit)
    requires ShortAt(a, b, i, lack)
    ensures Taken(a, b).Left?
    ensures Value(Taken(a, b).digits) == Value(a) - Value(b) - Pow(B, i + 1) * (lack - 1)
  {
    forall n | 0 <= n <= |b| ensures Short(a, b, n) == if n == i + 1 then lack else 0 {
      ShortOnce(a, b, i, lack, n);
    }
    ShortOnce(a, b, i, lack, |b|);
    TakenByDigits(a, b);
  }

  /** Subtracts d from digit i, rippling the borrow; ok is false when the source throws. */
  method SubtractDigit(a: Vec, d: Digit, i: nat) returns (ok: bool)
    modifies a
    ensures ok <==> TakeDigit(old(a.d), d, i).Left?
    ensures ok ==> a.d == TakeDigit(old(a.d), d, i).digits
    ensures |a.d| == old(|a.d|) && forall k | 0 <= k < |a.d| && k < i :: a.d[k] == old(a.d)[k]
    ensures i <= |a.d| && ok ==> Above(a.d, i) <= Above(old(a.d), i) - d
    ensures i <= |a.d| && ok && d <= 1 ==> Above(a.d, i) == Above(old(a.d), i) - d
    ensures i <= |a.d| && !ok && d <= 1 ==> Above(old(a.d), i) == 0 && (d == 1 || i == |a.d|)
    decreases |a.d| - i
  {
    if i <= |a.d| { TakeDigitAbove(a.d, d, i); }
    if i >= |a.d| { return false; }
    var (rest, borrow) := DigitSub(a.d[i], d);
    a.d := a.d[i := rest];
    if borrow != 0 {
      if i + 1 >= |a.d| { return false; }
      ok := SubtractDigit(a, borrow, i + 1);
      return ok;
    }
    return true;
  }

  // ----- When that is the difference -----

  /** 1 when the low i digits of b exceed those of a: the true borrow into digit i. */
  ghost function BorrowInto(a: seq<Digit>, b: seq<Digit>, i: nat): nat
    requires i <= |a| && i <= |b|
  {
    if Value(a[..i]) < Value(b[..i]) then 1 else 0
  }

  /** Digit i never falls short by more than one. */
  ghost predicate UnitShortfall(a: seq<Digit>, b: seq<Digit>, i: nat)
    requires i < |a| && i < |b|
  {
    var c, x: int, y: int := BorrowInto(a, b, i), a[i], b[i];
    y + c <= x + 1 || (x == 0 && c == 1)
  }

  /** What the operands must satisfy for the coded subtraction to be exact. */
  ghost predicate UnitBorrows(a: seq<Digit>, b: seq<Digit>) {
    |b| <= |a| && Value(b) <= Value(a) && forall i | 0 <= i < |b| :: UnitShortfall(a, b, i)
  }

  lemma BorrowNext(a: seq<Digit>, b: seq<Digit>, i: nat)
    requires i < |a| && i < |b|
    ensures BorrowInto(a, b, i + 1) == 1 <==> a[i] - BorrowInto(a, b, i) < b[i]
  {
    var p, u, v := Pow(B, i), Value(a[..i]), Value(b[..i]);
    ValueTake(a, i);
    ValueTake(b, i);
    ValueBounds(a[..i]);
    ValueBounds(b[..i]);
    if a[i] < b[i] {
      ProductAtLeast(p, 1, p, b[i] - a[i]);
      assert p * b[i] - p * a[i] == p * (b[i] - a[i]);
    } else if a[i] > b[i] {
      ProductAtLeast(p, 1, p, a[i] - b[i]);
      assert p * a[i] - p * b[i] == p * (a[i] - b[i]);
    }
  }

  /** While every borrow was a unit, the digits from i up stand for those of the start minus the true borrow; then the
      next shortfall is a unit exactly when the digits say so, and the true borrow moves on. */
  lemma BorrowMoves(start: seq<Digit>, b: seq<Digit>, was: seq<Digit>, i: nat)
    requires i < |b| && i < |start| == |was| && Above(was, i) == Above(start, i) - BorrowInto(start, b, i)
    ensures UnitShortfall(start, b, i) <==> DigitSub(was[i], b[i]).1 <= 1
    ensures Above(was, i + 1) - (if b[i] > was[i] then 1 else 0) == Above(start, i + 1) - BorrowInto(start, b, i + 1)
  {
    AboveStep(was, i);
    AboveStep(start, i);
    BorrowNext(start, b, i);
    var c, u, w := BorrowInto(start, b, i), Above(was, i + 1), Above(start, i + 1);
    if start[i] == 0 && c == 1 {
      assert u == w - 1;
    } else {
      assert u == w;
    }
  }

  /** What one step does to the whole value, from what it does to the digits from i up. */
  lemma StepValue(was: seq<Digit>, now: seq<Digit>, i: nat, y: int, unit: bool)
    requires i <= |was| == |now| && now[..i] == was[..i]
    requires if unit then Above(now, i) == Above(was, i) - y else Above(now, i) < Above(was, i) - y
    ensures if unit then Value(now) == Value(was) - Pow(B, i) * y else Value(now) < Value(was) - Pow(B, i) * y
  {
    ValueSplit(was, i);
    ValueSplit(now, i);
    PowPositive(B, i);
    StepAlgebra(Value(was), Value(now), Value(was[..i]), Pow(B, i), Above(was, i), Above(now, i), y);
  }

  lemma StepAlgebra(v: int, v': int, low: int, p: int, h: int, h': int, y: int)
    requires p > 0 && v == low + p * h && v' == low + p * h' && h' <= h - y
    ensures if h' == h - y then v' == v - p * y else v' < v - p * y
  {
    Scaled(p, h', h - y);
    assert p * (h - y) == p * h - p * y;
  }

  lemma Scaled(p: int, x: int, y: int)
    requires p > 0 && x <= y
    ensures if x == y then p * x == p * y else p * x < p * y
  {
    if x < y {
      ProductAtLeast(p, 1, p, y - x);
      assert p * (y - x) == p * y - p * x;
    }
  }

  /** One step takes b[i] at weight B^i when its borrow is at most 1, and more than that otherwise. */
  lemma StepDone(b: seq<Digit>, was: seq<Digit>, now: seq<Digit>, i: nat)
    requires i < |b| && i < |was| == |now| && now[..i] == was[..i] && now[i] == DigitSub(was[i], b[i]).0
    requires var borrow := DigitSub(was[i], b[i]).1;
             if borrow <= 1 then Above(now, i + 1) == Above(was, i + 1) - borrow
             else Above(now, i + 1) <= Above(was, i + 1) - borrow
    ensures Value(now) + Value(b[..i + 1]) <= Value(was) + Value(b[..i])
    ensures Value(now) + Value(b[..i + 1]) == Value(was) + Value(b[..i]) <==> DigitSub(was[i], b[i]).1 <= 1
  {
    AboveStep(was, i);
    AboveStep(now, i);
    StepValue(was, now, i, b[i], DigitSub(was[i], b[i]).1 <= 1);
    ValueTake(b, i);
  }

  /** With a borrow due and nothing left above, the subtrahend is the larger number. */
  lemma Overdrawn(start: seq<Digit>, b: seq<Digit>, i: nat)
    requires i <= |start| && i <= |b| && BorrowInto(start, b, i) == 1 && Above(start, i) == 0
    ensures Value(start) < Value(b)
  {
    NothingAbove(start, i);
    AtLeastPrefix(b, i);
  }

  lemma NothingAbove(s: seq<Digit>, i: nat)
    requires i <= |s| && Above(s, i) == 0
    ensures Value(s) == Value(s[..i])
  {
    ValueSplit(s, i);
    assert Pow(B, i) * 0 == 0;
  }

  lemma AtLeastPrefix(s: seq<Digit>, i: nat)
    requires i <= |s|
    ensures Value(s) >= Value(s[..i])
  {
    ValueSplit(s, i);
    AboveIsNonNegative(s, i);
    PowPositive(B, i);
    NonNegativeProduct(Pow(B, i), Above(s, i));
  }

  /** After i digits: at most the difference so far, and exactly it as long as every shortfall was a unit. */
  ghost predicate Progress(start: seq<Digit>, b: seq<Digit>, now: seq<Digit>, i: nat, clean: bool) {
    && i <= |b| && i <= |start| == |now|
    && Value(now) + Value(b[..i]) <= Value(start)
    && (clean <==> Value(now) + Value(b[..i]) == Value(start))
    && (clean <==> forall k | 0 <= k < i :: UnitShortfall(start, b, k))
    && (clean ==> Above(now, i) == Above(start, i) - BorrowInto(start, b, i))
  }

  lemma ProgressStep(start: seq<Digit>, b: seq<Digit>, was: seq<Digit>, now: seq<Digit>, i: nat, clean: bool)
    requires i < |b| && i < |was| == |now| && Progress(start, b, was, i, clean)
    requires now[..i] == was[..i] && now[i] == DigitSub(was[i], b[i]).0
    requires var borrow := DigitSub(was[i], b[i]).1;
             if borrow <= 1 then Above(now, i + 1) == Above(was, i + 1) - borrow
             else Above(now, i + 1) <= Above(was, i + 1) - borrow
    ensures Progress(start, b, now, i + 1, clean && DigitSub(was[i], b[i]).1 <= 1)
  {
    StepDone(b, was, now, i);
    if clean { BorrowMoves(start, b, was, i); }
  }

  /** A borrow that cannot be taken refutes UnitBorrows. */
  lemma ThrowIsDue(start: seq<Digit>, b: seq<Digit>, was: seq<Digit>, i: nat, clean: bool)
    requires i < |b| && i < |was| && Progress(start, b, was, i, clean) && b[i] > was[i]
    requires DigitSub(was[i], b[i]).1 == 1 ==> Above(was, i + 1) == 0
    ensures !UnitBorrows(start, b)
  {
    if clean {
      BorrowMoves(start, b, was, i);
      if DigitSub(was[i], b[i]).1 == 1 {
        AboveIsNonNegative(start, i + 1);
        Overdrawn(start, b, i + 1);
      }
    }
  }

  /** What taking d does to digit i and to the part above it. */
  lemma TakeDigitSplits(s: seq<Digit>, d: Digit, i: nat)
    requires i < |s|
    ensures var (rest, borrow) := DigitSub(s[i], d);
            match TakeDigit(s, d, i)
            case Left(t) =>
              && t[..i] == s[..i] && t[i] == rest
              && (if borrow <= 1 then Above(t, i + 1) == Above(s, i + 1) - borrow
                  else Above(t, i + 1) <= Above(s, i + 1) - borrow)
            case Thrown => d > s[i] && (borrow == 1 ==> Above(s, i + 1) == 0)
  {
    var (rest, borrow) := DigitSub(s[i], d);
    var t := s[i := rest];
    assert t[i + 1..] == s[i + 1..] && t[..i] == s[..i];
    if borrow != 0 {
      TakeDigitAbove(t, borrow, i + 1);
      if TakeDigit(t, borrow, i + 1).Left? { DigitKept(t, TakeDigit(t, borrow, i + 1).digits, i); }
    }
  }

  /** One digit of the subtrahend, from the state before it. */
  lemma StepTaken(start: seq<Digit>, b: seq<Digit>, was: seq<Digit>, i: nat, clean: bool)
    requires i < |b| && |was| == |start| && Progress(start, b, was, i, clean)
    ensures match TakeDigit(was, b[i], i)
            case Left(now) => Progress(start, b, now, i + 1, clean && DigitSub(was[i], b[i]).1 <= 1)
            case Thrown => !UnitBorrows(start, b)
  {
    if i < |was| {
      TakeDigitSplits(was, b[i], i);
      var r := TakeDigit(was, b[i], i);
      if r.Left? { ProgressStep(start, b, was, r.digits, i, clean); } else { ThrowIsDue(start, b, was, i, clean); }
    }
  }

  lemma {:induction false} FirstTaken(start: seq<Digit>, b: seq<Digit>, i: nat) returns (clean: bool)
    requires i <= |b|
    ensures match TakeFirst(start, b, i)
            case Left(now) => Progress(start, b, now, i, clean)
            case Thrown => !UnitBorrows(start, b)
    decreases i
  {
    if i == 0 {
      clean := true;
      assert start[0..] == start;
    } else {
      clean := FirstTaken(start, b, i - 1);
      match TakeFirst(start, b, i - 1) {
      case Left(was) =>
        StepTaken(start, b, was, i - 1, clean);
        if i - 1 < |was| { clean := clean && DigitSub(was[i - 1], b[i - 1]).1 <= 1; }
      case Thrown =>
      }
    }
  }

  /** What is left is the difference less the loss; there is an outcome without loss exactly when no digit falls short
      by more than 1. */
  lemma TakenIsExactIff(a: seq<Digit>, b: seq<Digit>)
    ensures match Taken(a, b)
            case Left(t) => Value(t) == Value(a) - Value(b) - Loss(a, b) && (Loss(a, b) == 0 <==> UnitBorrows(a, b))
            case Thrown => !UnitBorrows(a, b)
  {
    var clean := FirstTaken(a, b, |b|);
    assert b[..|b|] == b;
    match Taken(a, b) {
    case Left(t) =>
      TakeFirstValue(a, b, |b|);
      ValueBounds(t);
    case Thrown =>
    }
  }

  lemma {:induction false} StaysThrown(s: seq<Digit>, b: seq<Digit>, i: nat, n: nat)
    requires i <= n <= |b| && TakeFirst(s, b, i).Thrown?
    ensures TakeFirst(s, b, n).Thrown?
    decreases n
  {
    if i < n { StaysThrown(s, b, i, n - 1); }
  }

  /** In-place subtraction as coded.  The result is never more than the difference, and it is the difference exactly
      when every shortfall is a unit; ok is false when the source throws.  While every digit has what the shortfall
      below takes from it, the result misses the difference by what the shortfalls exceed 1 by.  A vector taken from
      itself leaves 0. */
  method Subtract(a: Vec, b: Vec) returns (ok: bool)
    modifies a
    ensures ok <==> Taken(old(a.d), old(b.d)).Left?
    ensures ok ==> Value(a.d) == old(Value(a.d)) - old(Value(b.d)) - Loss(old(a.d), old(b.d))
    ensures ok && Value(a.d) == old(Value(a.d)) - old(Value(b.d)) <==> UnitBorrows(old(a.d), old(b.d))
    ensures ok && old(a.d) != [] ==> Normalized(a.d)
    ensures NextCanGive(old(a.d), old(b.d)) ==>
              ok && Value(a.d) == old(Value(a.d)) - old(Value(b.d)) - Overtaken(old(a.d), old(b.d), |old(b.d)|)
    ensures a == b ==> ok && Value(a.d) == 0
  {
    ghost var start, from := a.d, b.d;
    TakenIsExactIff(start, from);
    if NextCanGive(start, from) { TakenByDigits(start, from); }
    var i := 0;
    while i < |b.d|
      invariant 0 <= i <= |b.d| == |from| && |a.d| == |start| && TakeFirst(start, from, i) == Left(a.d)
      invariant forall k | i <= k < |from| :: b.d[k] == from[k]
    {
      if i >= |a.d| {
        StaysThrown(start, from, i + 1, |from|);
        return false;
      }
      var (rest, borrow) := DigitSub(a.d[i], b.d[i]);
      a.d := a.d[i := rest];
      assert a == b ==> borrow == 0;
      if borrow != 0 {
        if i + 1 >= |a.d| {
          StaysThrown(start, from, i + 1, |from|);
          return false;
        }
        ok := SubtractDigit(a, borrow, i + 1);
        if !ok {
          StaysThrown(start, from, i + 1, |from|);
          return false;
        }
      }
      i := i + 1;
    }
    Normalize(a);
    return true;
  }

  /** 2^64 - 5 does not come out: a borrow of 5 is taken from the single unit of the second digit, and the source
      throws. */
  lemma SubtractionCanFail()
    ensures Normalized([0, 1]) && Normalized([5]) && Value([5]) <= Value([0, 1]) && !UnitBorrows([0, 1], [5])
  {
    ValueOne(5);
    ValueOne(1);
    assert Value([0, 1]) == B by { assert [0, 1][1..] == [1]; }
    assert !UnitShortfall([0, 1], [5], 0);
  }
}
