/** Karatsuba multiplication (cpp/lib/bign/BigNumberKaratsuba.cpp), with the subtraction that IBigNumber promises, and
    with the one of BigNumberNaive that the code calls: the product is always exact with the first, and this module says
    when it is with the second. */
module Karatsuba {
  import opened Masks
  import opened NumberTheory
  import opened Limbs
  import opened NaiveSubtract

  const KARATSUBA_THRESHOLD := 50

  /** Which subtraction the multiplication calls: an exact one that throws when the result would be negative, as the
      interface promises, or the coded one. */
  datatype Subtraction = AsPromised | AsCoded

  // ----- The digits of a number -----

  /** The normalized digits of a number. */
  function Digits(v: nat): (s: seq<Digit>)
    ensures Normalized(s) && Value(s) == v
  {
    if v < B then
      ValueOne(v);
      [v]
    else
      var rest := Digits(v / B);
      DigitsStep(v, rest);
      [v % B] + rest
  }

  lemma DigitsStep(v: nat, rest: seq<Digit>)
    requires v >= B && Normalized(rest) && Value(rest) == v / B
    ensures Value([v % B] + rest) == v && Normalized([v % B] + rest)
  {
    assert ([v % B] + rest)[1..] == rest;
    if |rest| == 1 {
      ValueOne(rest[0]);
      assert rest == [rest[0]];
    }
  }

  lemma {:induction false} SameLengthUnique(s: seq<Digit>, t: seq<Digit>)
    requires |s| == |t| && Value(s) == Value(t)
    ensures s == t
    decreases |s|
  {
    if s != [] {
      FirstDigit(s);
      FirstDigit(t);
      SameLengthUnique(s[1..], t[1..]);
      assert s == [s[0]] + s[1..] && t == [t[0]] + t[1..];
    }
  }

  lemma FirstDigit(s: seq<Digit>)
    requires s != []
    ensures Value(s) % B == s[0] && Value(s) / B == Value(s[1..])
  {
    ModuloUnique(Value(s), B, Value(s[1..]), s[0]);
  }

  /** A normalized vector holds the digits of its value. */
  lemma NormalizedIsDigits(s: seq<Digit>)
    requires Normalized(s)
    ensures Value(s) >= 0 && s == Digits(Value(s))
  {
    ValueBounds(s);
    var t := Digits(Value(s));
    if |s| != |t| { LongerIsGreater(s, t); }
    SameLengthUnique(s, t);
  }

  // ----- The parts that the recursion works on -----

  /** The lower part of a split at digit m, trimmed unless there is nothing above. */
  function Low(s: seq<Digit>, m: nat): seq<Digit> {
    if m >= |s| then s else
    ValueBounds(s[..m]);
    Digits(Value(s[..m]))
  }

  function High(s: seq<Digit>, m: nat): seq<Digit> {
    if m >= |s| then [0] else
    ValueBounds(s[m..]);
    Digits(Value(s[m..]))
  }

  function PartSum(s: seq<Digit>, m: nat): (r: seq<Digit>)
    ensures Value(r) == Value(Low(s, m)) + Value(High(s, m))
  {
    ValueBounds(Low(s, m));
    ValueBounds(High(s, m));
    Digits(Value(Low(s, m)) + Value(High(s, m)))
  }

  lemma DigitsLength(v: nat, k: nat)
    requires v < Pow(B, k) && k >= 1
    ensures |Digits(v)| <= k
  {
    NormalizedLength(Digits(v), k);
  }

  lemma PartsAreShort(s: seq<Digit>, m: nat, k: nat)
    requires 1 <= m && 1 <= k <= m && |s| <= m + k
    ensures |Low(s, m)| <= m && |High(s, m)| <= k && |PartSum(s, m)| <= m + 1
  {
    ValueBounds(Low(s, m));
    ValueBounds(High(s, m));
    if m < |s| {
      ValueBounds(s[..m]);
      ValueBounds(s[m..]);
      DigitsLength(Value(s[..m]), m);
      PowMonotone(|s| - m, k);
      DigitsLength(Value(s[m..]), k);
    }
    PowMonotone(|Low(s, m)|, m);
    PowMonotone(|High(s, m)|, m);
    PowPositive(B, m);
    DigitsLength(Value(Low(s, m)) + Value(High(s, m)), m + 1);
  }

  /** The recursion works on shorter operands. */
  lemma PartsAreShorter(a: seq<Digit>, b: seq<Digit>, m: nat)
    requires 4 <= |b| <= |a| && m == (|a| + 1) / 2
    ensures |Low(a, m)| <= m && |Low(b, m)| <= m && |Low(a, m)| + |Low(b, m)| < |a| + |b|
    ensures |High(a, m)| <= m && |High(b, m)| <= m && |High(a, m)| + |High(b, m)| < |a| + |b|
    ensures |PartSum(a, m)| <= m + 1 && |PartSum(b, m)| <= m + 1 && |PartSum(a, m)| + |PartSum(b, m)| < |a| + |b|
  {
    PartsAreShort(a, m, |a| - m);
    PartsAreShort(b, m, |a| - m);
    if |b| <= m { ShortSum(b, m); }
  }

  /** Nothing above means nothing to add. */
  lemma ShortSum(b: seq<Digit>, m: nat)
    requires 1 <= |b| <= m
    ensures |PartSum(b, m)| <= |b|
  {
    ValueOne(0);
    ValueBounds(b);
    DigitsLength(Value(b), |b|);
  }

  function ProductDigits(a: seq<Digit>, b: seq<Digit>): (r: seq<Digit>)
    ensures Normalized(r) && Value(r) == Value(a) * Value(b)
  {
    ValueBounds(a);
    ValueBounds(b);
    NonNegativeProduct(Value(a), Value(b));
    Digits(Value(a) * Value(b))
  }

  /** z1 - z0 - z2 comes out: with the coded subtraction, when neither step falls short by more than 1 in any digit. */
  ghost predicate CleanMiddle(sub: Subtraction, z0: seq<Digit>, z1: seq<Digit>, z2: seq<Digit>) {
    match sub
    case AsPromised => Value(z0) + Value(z2) <= Value(z1)
    case AsCoded => UnitBorrows(z1, z0) && UnitBorrows(Digits(Value(z1) - Value(z0)), z2)
  }

  ghost predicate CleanHere(sub: Subtraction, a: seq<Digit>, b: seq<Digit>, m: nat) {
    CleanMiddle(sub, ProductDigits(Low(a, m), Low(b, m)), ProductDigits(PartSum(a, m), PartSum(b, m)),
                ProductDigits(High(a, m), High(b, m)))
  }

  /** The products of the parts come out. */
  ghost predicate CleanBelow(sub: Subtraction, a: seq<Digit>, b: seq<Digit>, m: nat, threshold: nat)
    requires 4 <= threshold <= |b| <= |a| && m == (|a| + 1) / 2
    decreases |a| + |b|, 0, 0
  {
    PartsAreShorter(a, b, m);
    && Clean(sub, Low(a, m), Low(b, m), threshold)
    && Clean(sub, High(a, m), High(b, m), threshold)
    && Clean(sub, PartSum(a, m), PartSum(b, m), threshold)
  }

  /** No subtraction of the whole recursion falls short by more than 1 in any digit. */
  ghost predicate Clean(sub: Subtraction, a: seq<Digit>, b: seq<Digit>, threshold: nat)
    requires threshold >= 4
    decreases |a| + |b|, if |a| < |b| then 1 else 0, 1
  {
    if |a| < threshold || |b| < threshold then true
    else if |a| < |b| then Clean(sub, b, a, threshold)
    else CleanBelow(sub, a, b, (|a| + 1) / 2, threshold) && CleanHere(sub, a, b, (|a| + 1) / 2)
  }

  /** All subtractions of the recursion but the two of the outermost level are clean. */
  ghost predicate PartsClean(sub: Subtraction, a: seq<Digit>, b: seq<Digit>, threshold: nat)
    requires threshold >= 4
  {
    if |a| < threshold || |b| < threshold then true
    else if |a| < |b| then CleanBelow(sub, b, a, (|b| + 1) / 2, threshold)
    else CleanBelow(sub, a, b, (|a| + 1) / 2, threshold)
  }

  lemma ShortIsClean(sub: Subtraction, a: seq<Digit>, b: seq<Digit>, threshold: nat)
    requires threshold >= 4 && |a| < threshold
    ensures Clean(sub, a, b, threshold)
  {
  }

  lemma ShortPartsAreCleanBelow(sub: Subtraction, a: seq<Digit>, b: seq<Digit>, m: nat, threshold: nat)
    requires 4 <= threshold <= |b| <= |a| && m == (|a| + 1) / 2 && m + 1 < threshold
    ensures CleanBelow(sub, a, b, m, threshold)
  {
    PartsAreShorter(a, b, m);
    ShortIsClean(sub, Low(a, m), Low(b, m), threshold);
    ShortIsClean(sub, High(a, m), High(b, m), threshold);
    ShortIsClean(sub, PartSum(a, m), PartSum(b, m), threshold);
  }

  /** Operands so short that their parts are multiplied by the schoolbook, as those of less than 97 digits are. */
  lemma ShortPartsAreClean(sub: Subtraction, a: seq<Digit>, b: seq<Digit>, threshold: nat)
    requires threshold >= 4 && (|a| + 1) / 2 + 1 < threshold && (|b| + 1) / 2 + 1 < threshold
    ensures PartsClean(sub, a, b, threshold)
  {
    if threshold <= |a| && threshold <= |b| {
      if |a| < |b| {
        ShortPartsAreCleanBelow(sub, b, a, (|b| + 1) / 2, threshold);
      } else {
        ShortPartsAreCleanBelow(sub, a, b, (|a| + 1) / 2, threshold);
      }
    }
  }

  /** With an exact subtraction everything comes out: the cross products that are left are not negative. */
  lemma PromisedIsCleanHere(a: seq<Digit>, b: seq<Digit>, m: nat)
    ensures CleanHere(AsPromised, a, b, m)
  {
    var a0, a1, b0, b1 := Value(Low(a, m)), Value(High(a, m)), Value(Low(b, m)), Value(High(b, m));
    PartsMakeTheWhole(a, m);
    PartsMakeTheWhole(b, m);
    ProductValue(Low(a, m), Low(b, m), a0, b0);
    ProductValue(High(a, m), High(b, m), a1, b1);
    ProductValue(PartSum(a, m), PartSum(b, m), a0 + a1, b0 + b1);
    CrossProducts(a0, a1, b0, b1);
  }

  lemma {:induction false} PromisedIsClean(a: seq<Digit>, b: seq<Digit>, threshold: nat)
    requires threshold >= 4
    ensures Clean(AsPromised, a, b, threshold) && PartsClean(AsPromised, a, b, threshold)
    decreases |a| + |b|, if |a| < |b| then 1 else 0
  {
    if threshold <= |a| && threshold <= |b| {
      if |a| < |b| {
        PromisedIsClean(b, a, threshold);
      } else {
        var m := (|a| + 1) / 2;
        PartsAreShorter(a, b, m);
        PromisedIsCleanHere(a, b, m);
        PromisedIsClean(Low(a, m), Low(b, m), threshold);
        PromisedIsClean(High(a, m), High(b, m), threshold);
        PromisedIsClean(PartSum(a, m), PartSum(b, m), threshold);
      }
    }
  }

  // ----- What the code computes -----

  function Number(s: seq<Digit>): (v: nat)
    ensures v == Value(s)
  {
    ValueBounds(s);
    Value(s)
  }

  /** x - y by the subtraction chosen, normalized. */
  function Minus(sub: Subtraction, x: seq<Digit>, y: seq<Digit>): (r: Outcome)
    ensures r.Left? ==> Normalized(r.digits)
  {
    match sub
    case AsPromised => if Value(y) <= Value(x) then Left(Digits(Value(x) - Value(y))) else Thrown
    case AsCoded =>
      match Taken(x, y)
      case Thrown => Thrown
      case Left(t) => Left(Digits(Number(t)))
  }

  /** By how much that misses the difference. */
  function Missed(sub: Subtraction, x: seq<Digit>, y: seq<Digit>): (e: int)
    ensures e >= 0
  {
    if sub.AsPromised? then 0 else Loss(x, y)
  }

  lemma MinusValue(sub: Subtraction, x: seq<Digit>, y: seq<Digit>)
    requires Minus(sub, x, y).Left?
    ensures Value(Minus(sub, x, y).digits) == Value(x) - Value(y) - Missed(sub, x, y)
  {
    TakenIsExactIff(x, y);
  }

  /** z1 - z0 - z2. */
  function Middle(sub: Subtraction, z0: seq<Digit>, z1: seq<Digit>, z2: seq<Digit>): (r: Outcome)
    ensures r.Left? ==> Normalized(r.digits)
  {
    match Minus(sub, z1, z0)
    case Thrown => Thrown
    case Left(d) => Minus(sub, d, z2)
  }

  function MiddleMissed(sub: Subtraction, z0: seq<Digit>, z1: seq<Digit>, z2: seq<Digit>): (e: int)
    ensures e >= 0
  {
    match Minus(sub, z1, z0)
    case Thrown => 0
    case Left(d) => Missed(sub, z1, z0) + Missed(sub, d, z2)
  }

  /** z0 + B^m * mid + B^2m * z2. */
  function Combined(z0: seq<Digit>, mid: seq<Digit>, z2: seq<Digit>, m: nat): (r: seq<Digit>)
    ensures Normalized(r) && Value(r) == Pow(B, m) * Pow(B, m) * Value(z2) + Pow(B, m) * Value(mid) + Value(z0)
  {
    CombinedIsNonNegative(Pow(B, m), Number(z0), Number(mid), Number(z2), m);
    Digits(Pow(B, m) * Pow(B, m) * Value(z2) + Pow(B, m) * Value(mid) + Value(z0))
  }

  lemma CombinedIsNonNegative(p: int, z0: nat, mid: nat, z2: nat, m: nat)
    requires p == Pow(B, m)
    ensures p * p * z2 + p * mid + z0 >= 0
  {
    PowPositive(B, m);
    NonNegativeProduct(p, p);
    NonNegativeProduct(p * p, z2);
    NonNegativeProduct(p, mid);
  }

  /** The outcome of one level, from the outcomes for the parts. */
  function Assembled(sub: Subtraction, z0: Outcome, z1: Outcome, z2: Outcome, m: nat): (r: Outcome)
    ensures r.Left? ==> z0.Left? && z1.Left? && z2.Left? && Normalized(r.digits)
  {
    if z0.Thrown? || z1.Thrown? || z2.Thrown? then Thrown else
    match Middle(sub, z0.digits, z1.digits, z2.digits)
    case Thrown => Thrown
    case Left(mid) => Left(Combined(z0.digits, mid, z2.digits, m))
  }

  /** The digits that the multiplication leaves, or an exception. */
  function Computed(sub: Subtraction, a: seq<Digit>, b: seq<Digit>, threshold: nat): (r: Outcome)
    requires threshold >= 4
    ensures r.Left? ==> Normalized(r.digits)
    decreases |a| + |b|, if |a| < |b| then 1 else 0
  {
    if |a| < threshold || |b| < threshold then Left(ProductDigits(a, b))
    else if |a| < |b| then Computed(sub, b, a, threshold)
    else
      var m := (|a| + 1) / 2;
      PartsAreShorter(a, b, m);
      Assembled(sub, Computed(sub, Low(a, m), Low(b, m), threshold),
                Computed(sub, PartSum(a, m), PartSum(b, m), threshold),
                Computed(sub, High(a, m), High(b, m), threshold), m)
  }

  ghost predicate Results(sub: Subtraction, a: seq<Digit>, b: seq<Digit>, threshold: nat, ok: bool, r: seq<Digit>)
    requires threshold >= 4
  {
    (ok <==> Computed(sub, a, b, threshold).Left?) && (ok ==> r == Computed(sub, a, b, threshold).digits)
  }

  /** By how much the result misses the product. */
  function Error(sub: Subtraction, a: seq<Digit>, b: seq<Digit>, threshold: nat): int
    requires threshold >= 4
  {
    match Computed(sub, a, b, threshold)
    case Thrown => 0
    case Left(r) => Value(a) * Value(b) - Value(r)
  }

  /** What the two subtractions of the outermost level take too much. */
  function MissedHere(sub: Subtraction, a: seq<Digit>, b: seq<Digit>, m: nat, threshold: nat): (e: int)
    requires threshold >= 4
    ensures e >= 0
  {
    var z0, z2 := Computed(sub, Low(a, m), Low(b, m), threshold), Computed(sub, High(a, m), High(b, m), threshold);
    var z1 := Computed(sub, PartSum(a, m), PartSum(b, m), threshold);
    if z0.Left? && z1.Left? && z2.Left? then MiddleMissed(sub, z0.digits, z1.digits, z2.digits) else 0
  }

  lemma MiddleValue(sub: Subtraction, z0: seq<Digit>, z1: seq<Digit>, z2: seq<Digit>)
    requires Middle(sub, z0, z1, z2).Left?
    ensures Value(Middle(sub, z0, z1, z2).digits) ==
              Value(z1) - Value(z0) - Value(z2) - MiddleMissed(sub, z0, z1, z2)
  {
    MinusValue(sub, z1, z0);
    MinusValue(sub, Minus(sub, z1, z0).digits, z2);
  }

  /** The error of a product from those of the three products of the parts, from what the subtractions take too much,
      and from the weight p of the split. */
  function FromParts(p: int, e0: int, e1: int, e2: int, missed: int): int {
    p * (p - 1) * e2 + p * (e1 + missed) - (p - 1) * e0
  }

  lemma Spread(p: int, x: int, y: int)
    ensures p * (x - y) == p * x - p * y && p * (x + y) == p * x + p * y
  {
  }

  lemma SpreadSquare(p: int, u: int)
    ensures p * (p - 1) * u == p * p * u - p * u && (p - 1) * u == p * u - u
  {
    assert p * (p - 1) == p * p - p;
  }

  /** With e0, e1 and e2 the errors of the three products, c that of the middle and p the weight of the split. */
  lemma ErrorTerms(p: int, x: int, y: int, c: int, z0: int, z2: int, mid: int, e1: int, missed: int)
    requires c - mid == e1 + missed - (x - z0) - (y - z2)
    ensures p * p * y + p * c + x - (p * p * z2 + p * mid + z0) ==
              FromParts(p, x - z0, e1, y - z2, missed)
  {
    SpreadSquare(p, y - z2);
    SpreadSquare(p, x - z0);
    Spread(p * p, y, z2);
    Spread(p, c, mid);
    Spread(p, e1 + missed - (x - z0), y - z2);
    Spread(p, e1 + missed, x - z0);
  }

  /** How the errors of the parts and the losses of the two subtractions make the error of the whole. */
  lemma ErrorAlgebra(a0: int, a1: int, b0: int, b1: int, p: int, z0: int, z1: int, z2: int, mid: int, missed: int)
    requires mid == z1 - z0 - z2 - missed
    ensures (a0 + p * a1) * (b0 + p * b1) - (p * p * z2 + p * mid + z0) ==
              FromParts(p, a0 * b0 - z0, (a0 + a1) * (b0 + b1) - z1, a1 * b1 - z2, missed)
  {
    KaratsubaIdentity(a0, a1, b0, b1, p);
    SumIdentity(a0, a1, b0, b1);
    ErrorTerms(p, a0 * b0, a1 * b1, a0 * b1 + a1 * b0, z0, z2, mid, (a0 + a1) * (b0 + b1) - z1, missed);
  }

  lemma SumIdentity(a0: int, a1: int, b0: int, b1: int)
    ensures (a0 + a1) * (b0 + b1) == a0 * b0 + (a0 * b1 + a1 * b0) + a1 * b1
  {
  }

  /** What the code computes for long operands, with the outcomes for the parts at hand. */
  lemma ComputedHalves(sub: Subtraction, a: seq<Digit>, b: seq<Digit>, m: nat, threshold: nat)
    returns (z0: seq<Digit>, z1: seq<Digit>, z2: seq<Digit>, mid: seq<Digit>)
    requires 4 <= threshold <= |b| <= |a| && m == (|a| + 1) / 2 && Computed(sub, a, b, threshold).Left?
    ensures Computed(sub, Low(a, m), Low(b, m), threshold) == Left(z0)
    ensures Computed(sub, PartSum(a, m), PartSum(b, m), threshold) == Left(z1)
    ensures Computed(sub, High(a, m), High(b, m), threshold) == Left(z2)
    ensures MissedHere(sub, a, b, m, threshold) == MiddleMissed(sub, z0, z1, z2)
    ensures Middle(sub, z0, z1, z2) == Left(mid) && Computed(sub, a, b, threshold) == Left(Combined(z0, mid, z2, m))
  {
    z0 := Computed(sub, Low(a, m), Low(b, m), threshold).digits;
    z1 := Computed(sub, PartSum(a, m), PartSum(b, m), threshold).digits;
    z2 := Computed(sub, High(a, m), High(b, m), threshold).digits;
    mid := Middle(sub, z0, z1, z2).digits;
  }

  lemma ErrorIs(sub: Subtraction, a: seq<Digit>, b: seq<Digit>, threshold: nat, r: seq<Digit>, x: int, y: int)
    requires threshold >= 4 && Computed(sub, a, b, threshold) == Left(r) && Value(a) == x && Value(b) == y
    ensures Error(sub, a, b, threshold) == x * y - Value(r)
  {
  }

  /** The error of a product, for all operands whose parts are multiplied recursively. */
  lemma ErrorOfHalves(sub: Subtraction, a: seq<Digit>, b: seq<Digit>, m: nat, threshold: nat)
    requires 4 <= threshold <= |b| <= |a| && m == (|a| + 1) / 2 && Computed(sub, a, b, threshold).Left?
    ensures Error(sub, a, b, threshold) ==
              FromParts(Pow(B, m), Error(sub, Low(a, m), Low(b, m), threshold),
                        Error(sub, PartSum(a, m), PartSum(b, m), threshold),
                        Error(sub, High(a, m), High(b, m), threshold), MissedHere(sub, a, b, m, threshold))
  {
    var z0, z1, z2, mid := ComputedHalves(sub, a, b, m, threshold);
    var a0, a1, b0, b1, p := Value(Low(a, m)), Value(High(a, m)), Value(Low(b, m)), Value(High(b, m)), Pow(B, m);
    var e0 := Error(sub, Low(a, m), Low(b, m), threshold);
    var e1 := Error(sub, PartSum(a, m), PartSum(b, m), threshold);
    var e2 := Error(sub, High(a, m), High(b, m), threshold);
    MiddleValue(sub, z0, z1, z2);
    PartsMakeTheWhole(a, m);
    PartsMakeTheWhole(b, m);
    ErrorIs(sub, Low(a, m), Low(b, m), threshold, z0, a0, b0);
    ErrorIs(sub, PartSum(a, m), PartSum(b, m), threshold, z1, a0 + a1, b0 + b1);
    ErrorIs(sub, High(a, m), High(b, m), threshold, z2, a1, b1);
    ErrorIs(sub, a, b, threshold, Combined(z0, mid, z2, m), a0 + p * a1, b0 + p * b1);
    ErrorNumbers(a0, a1, b0, b1, p, Value(z0), Value(z1), Value(z2), Value(mid), MiddleMissed(sub, z0, z1, z2),
                 e0, e1, e2, Error(sub, a, b, threshold));
  }

  lemma ErrorNumbers(a0: int, a1: int, b0: int, b1: int, p: int, z0: int, z1: int, z2: int, mid: int, missed: int,
                     e0: int, e1: int, e2: int, e: int)
    requires mid == z1 - z0 - z2 - missed
    requires e0 == a0 * b0 - z0 && e1 == (a0 + a1) * (b0 + b1) - z1 && e2 == a1 * b1 - z2
    requires e == (a0 + p * a1) * (b0 + p * b1) - (p * p * z2 + p * mid + z0)
    ensures e == FromParts(p, e0, e1, e2, missed)
  {
    ErrorAlgebra(a0, a1, b0, b1, p, z0, z1, z2, mid, missed);
  }

  /** Once the low parts multiply exactly and the other two products are not too large, errors cannot cancel. */
  lemma ErrorsDoNotCancel(sub: Subtraction, a: seq<Digit>, b: seq<Digit>, m: nat, threshold: nat)
    requires 4 <= threshold <= |b| <= |a| && m == (|a| + 1) / 2 && Computed(sub, a, b, threshold).Left?
    requires Error(sub, Low(a, m), Low(b, m), threshold) == 0
    requires Error(sub, PartSum(a, m), PartSum(b, m), threshold) >= 0
    requires Error(sub, High(a, m), High(b, m), threshold) >= 0
    ensures Error(sub, a, b, threshold) >= 0
    ensures Error(sub, a, b, threshold) == 0 <==>
              && Error(sub, PartSum(a, m), PartSum(b, m), threshold) == 0 && MissedHere(sub, a, b, m, threshold) == 0
              && Error(sub, High(a, m), High(b, m), threshold) == 0
  {
    ErrorOfHalves(sub, a, b, m, threshold);
    WeightIsLarge(m);
    NoneCancels(Pow(B, m), Error(sub, PartSum(a, m), PartSum(b, m), threshold),
                Error(sub, High(a, m), High(b, m), threshold), MissedHere(sub, a, b, m, threshold));
  }

  lemma WeightIsLarge(m: nat)
    requires m > 0
    ensures Pow(B, m) > 1
  {
    PowPositive(B, m - 1);
    ProductAtLeast(2, 1, B, Pow(B, m - 1));
  }

  lemma NoneCancels(p: int, e1: int, e2: int, missed: int)
    requires p > 1 && e1 >= 0 && e2 >= 0 && missed >= 0
    ensures FromParts(p, 0, e1, e2, missed) >= 0
    ensures FromParts(p, 0, e1, e2, missed) == 0 <==> e1 == 0 && missed == 0 && e2 == 0
  {
    ProductAtLeast(1, 1, p, p - 1);
    SumOfTwo(p * (p - 1), e2, p, e1 + missed);
  }

  lemma SumOfTwo(p: int, x: int, q: int, y: int)
    requires p > 0 && q > 0 && x >= 0 && y >= 0
    ensures p * x + q * y >= 0 && (p * x + q * y == 0 <==> x == 0 && y == 0)
  {
    ProductAtLeast(1, x, p, x);
    ProductAtLeast(1, y, q, y);
  }

  // ----- What the multiplication promises -----

  ghost predicate Exact(x: int, y: int, ok: bool, r: seq<Digit>) {
    ok && Value(r) == x * y
  }

  /** A clean recursion gives the product.  As long as the products of the parts come out, the product is exact if and
      only if the two subtractions of the outermost level are clean. */
  ghost predicate Promise(sub: Subtraction, a: seq<Digit>, b: seq<Digit>, threshold: nat, ok: bool, r: seq<Digit>)
    requires threshold >= 4
  {
    && (ok ==> Normalized(r))
    && (Clean(sub, a, b, threshold) ==> ok && r == ProductDigits(a, b))
    && (PartsClean(sub, a, b, threshold) ==> (Exact(Value(a), Value(b), ok, r) <==> Clean(sub, a, b, threshold)))
  }

  lemma PromiseOfSchoolbook(sub: Subtraction, a: seq<Digit>, b: seq<Digit>, threshold: nat, r: seq<Digit>)
    requires threshold >= 4 && (|a| < threshold || |b| < threshold)
    requires Value(r) == Value(a) * Value(b) && Normalized(r)
    ensures Promise(sub, a, b, threshold, true, r)
  {
    NormalizedIsDigits(r);
  }

  lemma PromiseExchanged(sub: Subtraction, a: seq<Digit>, b: seq<Digit>, threshold: nat, ok: bool,
                         r: seq<Digit>, r': seq<Digit>)
    requires 4 <= threshold <= |a| < |b| && Promise(sub, b, a, threshold, ok, r) && (ok ==> r' == r)
    ensures Promise(sub, a, b, threshold, ok, r')
  {
    assert Value(a) * Value(b) == Value(b) * Value(a);
  }

  ghost predicate HalvesPromise(sub: Subtraction, a: seq<Digit>, b: seq<Digit>, threshold: nat, ok: bool, r: seq<Digit>)
    requires 4 <= threshold <= |b| <= |a|
  {
    var m := (|a| + 1) / 2;
    CleanBelow(sub, a, b, m, threshold) ==> (Exact(Value(a), Value(b), ok, r) <==> CleanHere(sub, a, b, m))
  }

  lemma PromiseOfHalves(sub: Subtraction, a: seq<Digit>, b: seq<Digit>, threshold: nat, ok: bool, r: seq<Digit>)
    requires 4 <= threshold <= |b| <= |a| && (ok ==> Normalized(r)) && HalvesPromise(sub, a, b, threshold, ok, r)
    ensures Promise(sub, a, b, threshold, ok, r)
  {
    if ok { NormalizedIsDigits(r); }
  }

  // ----- The operations -----

  /** low + B^pos * high == src, with both halves trimmed. */
  method SplitAt(src: seq<Digit>, pos: nat) returns (low: Vec, high: Vec)
    ensures fresh(low) && fresh(high) && low != high
    ensures Value(src) == Value(low.d) + Pow(B, pos) * Value(high.d)
    ensures 0 < pos < |src| ==> 1 <= |low.d| <= pos && 1 <= |high.d| <= |src| - pos
    ensures 0 < pos ==> low.d == Low(src, pos) && high.d == High(src, pos)
    ensures pos >= |src| ==> low.d == src && high.d == [0]
    ensures pos == 0 && src != [] ==> low.d == [0] && high.d == src
  {
    if pos >= |src| {
      low := new Vec(src);
      high := new Vec([0]);
      ValueOne(0);
      return;
    }
    if pos == 0 {
      low := new Vec([0]);
      high := new Vec(src);
      ValueOne(0);
      return;
    }
    low := new Vec(seq(pos, _ => 0));
    high := new Vec(seq(|src| - pos, _ => 0));
    var i := 0;
    while i < pos
      invariant 0 <= i <= pos && |low.d| == pos && forall k | 0 <= k < i :: low.d[k] == src[k]
      invariant |high.d| == |src| - pos
    {
      low.d := low.d[i := src[i]];
      i := i + 1;
    }
    assert low.d == src[..pos];
    while i < |src|
      invariant pos <= i <= |src| && |high.d| == |src| - pos
      invariant forall k | 0 <= k < i - pos :: high.d[k] == src[pos + k]
      invariant low.d == src[..pos]
    {
      high.d := high.d[i - pos := src[i]];
      i := i + 1;
    }
    assert high.d == src[pos..];
    ValueSplit(src, pos);
    Normalize(low);
    Normalize(high);
    NormalizedIsDigits(low.d);
    NormalizedIsDigits(high.d);
  }

  /** Inserts k zeros at the front. */
  method ShiftUp(v: Vec, k: nat)
    modifies v
    ensures Value(v.d) == Pow(B, k) * old(Value(v.d)) && |v.d| == old(|v.d|) + k
  {
    var i := 0;
    while i < k
      invariant 0 <= i <= k && Value(v.d) == Pow(B, i) * old(Value(v.d)) && |v.d| == old(|v.d|) + i
    {
      PushFront(v.d);
      assert B * (Pow(B, i) * old(Value(v.d))) == Pow(B, i + 1) * old(Value(v.d));
      v.d := [0] + v.d;
      i := i + 1;
    }
  }

  method SumOfParts(low: Vec, high: Vec, ghost src: seq<Digit>, ghost m: nat) returns (sum: Vec)
    requires low != high && low.d == Low(src, m) && high.d == High(src, m) && low.d != []
    ensures fresh(sum) && sum.d == PartSum(src, m)
  {
    sum := new Vec(low.d);
    Add(sum, high);
    NormalizedIsDigits(sum.d);
  }

  /** z1 - z0 - z2 is the sum of the cross products, so neither subtraction can underflow. */
  lemma CrossProducts(a0: int, a1: int, b0: int, b1: int)
    requires a0 >= 0 && a1 >= 0 && b0 >= 0 && b1 >= 0
    ensures a0 * b0 <= (a0 + a1) * (b0 + b1)
    ensures a1 * b1 <= (a0 + a1) * (b0 + b1) - a0 * b0
    ensures (a0 + a1) * (b0 + b1) - a0 * b0 - a1 * b1 == a0 * b1 + a1 * b0
  {
    NonNegativeProduct(a0, b1);
    NonNegativeProduct(a1, b0);
    NonNegativeProduct(a1, b1);
    assert (a0 + a1) * (b0 + b1) == a0 * b0 + a0 * b1 + a1 * b0 + a1 * b1;
  }

  /** Three half products make the whole one. */
  lemma KaratsubaIdentity(a0: int, a1: int, b0: int, b1: int, p: int)
    ensures p * p * (a1 * b1) + p * (a0 * b1 + a1 * b0) + a0 * b0 == (a0 + p * a1) * (b0 + p * b1)
  {
    assert (a0 + p * a1) * (b0 + p * b1) == a0 * (b0 + p * b1) + p * a1 * (b0 + p * b1);
    assert a0 * (b0 + p * b1) == a0 * b0 + p * (a0 * b1);
    assert p * a1 * (b0 + p * b1) == p * (a1 * b0) + p * p * (a1 * b1);
  }

  /** z2 * B^2m + z1 * B^m + z0. */
  method Combine(z0: Vec, z1: Vec, z2: Vec, m: nat) returns (result: Vec)
    requires z0.d != []
    ensures fresh(result) && Normalized(result.d)
    ensures Value(result.d) == Pow(B, m) * Pow(B, m) * Value(z2.d) + Pow(B, m) * Value(z1.d) + Value(z0.d)
  {
    result := new Vec(z2.d);
    ShiftUp(result, 2 * m);
    PowAdd(B, m, m);
    var z1Shifted := new Vec(z1.d);
    ShiftUp(z1Shifted, m);
    Add(result, z1Shifted);
    Add(result, z0);
    Normalize(result);
  }

  /** Taking less away from the middle product than one should is what a failing subtraction amounts to. */
  lemma MiddleDecides(p: int, z0: int, z1: int, z2: int, cross: int)
    requires p > 0 && z1 <= cross
    ensures p * p * z2 + p * z1 + z0 == p * p * z2 + p * cross + z0 <==> z1 == cross
  {
    if z1 < cross {
      ProductAtLeast(p, 1, p, cross - z1);
      assert p * cross - p * z1 == p * (cross - z1);
    }
  }

  function ValueUpTo(s: seq<Digit>, i: nat): int {
    Value(if i < |s| then s[..i] else s)
  }

  /** subtract as IBigNumber promises it: exact, borrowing one unit from the next digit, or throwing. */
  method SubtractExactly(a: Vec, b: Vec) returns (ok: bool)
    requires a != b && Normalized(a.d) && Normalized(b.d)
    modifies a
    ensures ok <==> Value(b.d) <= old(Value(a.d))
    ensures ok ==> Value(a.d) == old(Value(a.d)) - Value(b.d) && Normalized(a.d)
  {
    var order := Compare(a.d, b.d);
    if order < 0 { return false; }
    NoLonger(a.d, b.d);
    var borrow: Digit := 0;
    var i := 0;
    while i < |a.d|
      invariant 0 <= i <= |a.d| && |a.d| == old(|a.d|) && borrow <= 1
      invariant Value(a.d) - Pow(B, i) * borrow == old(Value(a.d)) - ValueUpTo(b.d, i)
    {
      var y: int := if i < |b.d| then b.d[i] else 0;
      var x := a.d[i] - y - borrow;
      var borrow' := if x < 0 then 1 else 0;
      BorrowStep(a.d, b.d, i, y, borrow, borrow');
      a.d := a.d[i := x + B * borrow'];
      borrow := borrow';
      i := i + 1;
    }
    ValueBounds(a.d);
    Normalize(a);
    ok := true;
  }

  lemma NoLonger(a: seq<Digit>, b: seq<Digit>)
    requires Normalized(b) && a != [] && Value(b) <= Value(a)
    ensures |b| <= |a|
  {
    ValueBounds(a);
    NormalizedLength(b, |a|);
  }

  lemma BorrowStep(a: seq<Digit>, b: seq<Digit>, i: nat, y: int, borrow: int, borrow': int)
    requires i < |a| && y == (if i < |b| then b[i] else 0)
    requires 0 <= a[i] - y - borrow + B * borrow' < B
    ensures Value(a[i := a[i] - y - borrow + B * borrow']) - Pow(B, i + 1) * borrow' ==
            Value(a) - Pow(B, i) * borrow - Pow(B, i) * y
    ensures ValueUpTo(b, i + 1) == ValueUpTo(b, i) + Pow(B, i) * y
  {
    ValueSet(a, i, a[i] - y - borrow + B * borrow');
    var p := Pow(B, i);
    assert p * (B * borrow' - y - borrow) == (B * p) * borrow' - p * borrow - p * y;
    if i < |b| {
      ValueTake(b, i);
      assert i + 1 == |b| ==> b[..i + 1] == b;
    }
  }

  method SubtractAs(sub: Subtraction, a: Vec, b: Vec) returns (ok: bool)
    requires a != b && Normalized(a.d) && Normalized(b.d)
    modifies a
    ensures ok ==> Normalized(a.d) && Value(a.d) <= old(Value(a.d)) - Value(b.d)
    ensures ok && Value(a.d) == old(Value(a.d)) - Value(b.d) <==>
              if sub.AsPromised? then Value(b.d) <= old(Value(a.d)) else UnitBorrows(old(a.d), b.d)
    ensures ok <==> Minus(sub, old(a.d), b.d).Left?
    ensures ok ==> a.d == Minus(sub, old(a.d), b.d).digits
  {
    ghost var x := a.d;
    match sub {
    case AsPromised => ok := SubtractExactly(a, b);
    case AsCoded => ok := NaiveSubtract.Subtract(a, b);
    }
    if ok {
      MinusValue(sub, x, b.d);
      SameDigits(a.d, Minus(sub, x, b.d).digits);
    }
  }

  lemma SameDigits(s: seq<Digit>, t: seq<Digit>)
    requires Normalized(s) && Normalized(t) && Value(s) == Value(t)
    ensures s == t
  {
    NormalizedIsDigits(s);
    NormalizedIsDigits(t);
  }

  /** z1 - z0 - z2. */
  method TakeFromMiddle(sub: Subtraction, z0: Vec, z1: Vec, z2: Vec) returns (ok: bool)
    requires z0 != z1 && z1 != z2 && Normalized(z0.d) && Normalized(z1.d) && Normalized(z2.d)
    modifies z1
    ensures ok ==> Normalized(z1.d) && Value(z1.d) <= old(Value(z1.d)) - Value(z0.d) - Value(z2.d)
    ensures ok && Value(z1.d) == old(Value(z1.d)) - Value(z0.d) - Value(z2.d) <==>
              CleanMiddle(sub, z0.d, old(z1.d), z2.d)
    ensures ok <==> Middle(sub, z0.d, old(z1.d), z2.d).Left?
    ensures ok ==> z1.d == Middle(sub, z0.d, old(z1.d), z2.d).digits
  {
    ValueBounds(z2.d);
    ok := SubtractAs(sub, z1, z0);
    if !ok { return; }
    NormalizedIsDigits(z1.d);
    ok := SubtractAs(sub, z1, z2);
  }

  ghost predicate AssemblyPromise(sub: Subtraction, z0: seq<Digit>, z1: seq<Digit>, z2: seq<Digit>, m: nat,
                                  a0: int, a1: int, b0: int, b1: int, ok: bool, r: seq<Digit>) {
    Value(z0) == a0 * b0 && Value(z2) == a1 * b1 && Value(z1) == (a0 + a1) * (b0 + b1) ==>
      (Exact(a0 + Pow(B, m) * a1, b0 + Pow(B, m) * b1, ok, r) <==> CleanMiddle(sub, z0, z1, z2))
  }

  /** The product of a0 + B^m * a1 and b0 + B^m * b1 from the three products of their parts: exact when neither
      subtraction falls short by more than 1 in any digit, and only then. */
  method Assemble(sub: Subtraction, z0: Vec, z1: Vec, z2: Vec, m: nat,
                  ghost a0: nat, ghost a1: nat, ghost b0: nat, ghost b1: nat)
    returns (ok: bool, result: Vec)
    requires z0 != z1 && z1 != z2
    requires Normalized(z0.d) && Normalized(z1.d) && Normalized(z2.d)
    modifies z1
    ensures fresh(result) && (ok ==> Normalized(result.d))
    ensures AssemblyPromise(sub, z0.d, old(z1.d), z2.d, m, a0, a1, b0, b1, ok, result.d)
    ensures ok <==> Assembled(sub, Left(z0.d), Left(old(z1.d)), Left(z2.d), m).Left?
    ensures ok ==> result.d == Assembled(sub, Left(z0.d), Left(old(z1.d)), Left(z2.d), m).digits
  {
    ghost var first := z1.d;
    ok := TakeFromMiddle(sub, z0, z1, z2);
    if ok {
      result := Combine(z0, z1, z2, m);
      SameDigits(result.d, Combined(z0.d, z1.d, z2.d, m));
    } else {
      result := new Vec([]);
    }
    PowPositive(B, m);
    AssemblyIs(Pow(B, m), a0, a1, b0, b1, Value(z0.d), Value(first), Value(z2.d), ok, Value(z1.d), Value(result.d),
               CleanMiddle(sub, z0.d, first, z2.d));
  }

  /** The same in numbers: with the exact products of the parts, the result is exact if and only if the middle is. */
  lemma AssemblyIs(p: int, a0: nat, a1: nat, b0: nat, b1: nat, z0: int, z1: int, z2: int, ok: bool, mid: int, v: int,
                   clean: bool)
    requires p > 0 && (ok ==> mid <= z1 - z0 - z2 && v == p * p * z2 + p * mid + z0)
    requires ok && mid == z1 - z0 - z2 <==> clean
    ensures z0 == a0 * b0 && z2 == a1 * b1 && z1 == (a0 + a1) * (b0 + b1) ==>
              (ok && v == (a0 + p * a1) * (b0 + p * b1) <==> clean)
  {
    if ok && z0 == a0 * b0 && z2 == a1 * b1 && z1 == (a0 + a1) * (b0 + b1) {
      AssemblyNumbers(p, a0, a1, b0, b1, z0, z1, z2, mid);
    }
  }

  lemma AssemblyNumbers(p: int, a0: nat, a1: nat, b0: nat, b1: nat, z0: int, z1: int, z2: int, mid: int)
    requires p > 0 && z0 == a0 * b0 && z2 == a1 * b1 && z1 == (a0 + a1) * (b0 + b1) && mid <= z1 - z0 - z2
    ensures p * p * z2 + p * mid + z0 == (a0 + p * a1) * (b0 + p * b1) <==> mid == z1 - z0 - z2
  {
    CrossProducts(a0, a1, b0, b1);
    KaratsubaIdentity(a0, a1, b0, b1, p);
    MiddleDecides(p, z0, mid, z2, a0 * b1 + a1 * b0);
  }

  /** a := a * b; ok is false when a subtraction throws.  Any threshold of at least 4 lets the recursion end:
      the sums of the parts can be one digit longer than the halves. */
  method MultiplyRecursive(sub: Subtraction, a: Vec, b: Vec, threshold: nat) returns (ok: bool)
    requires threshold >= 4
    modifies a
    ensures Results(sub, old(a.d), old(b.d), threshold, ok, a.d)
    ensures Promise(sub, old(a.d), old(b.d), threshold, ok, a.d)
    ensures sub.AsPromised? ==> ok && Value(a.d) == old(Value(a.d)) * old(Value(b.d)) && Normalized(a.d)
    decreases |a.d| + |b.d|, if |a.d| < |b.d| then 1 else 0, 2
  {
    ghost var x, y := a.d, b.d;
    if sub.AsPromised? { PromisedIsClean(x, y, threshold); }
    if |a.d| < threshold || |b.d| < threshold {
      Multiply(a, b);
      PromiseOfSchoolbook(sub, x, y, threshold, a.d);
      return true;
    }
    if |a.d| < |b.d| {
      var aCopy := new Vec(a.d);
      var bCopy := new Vec(b.d);
      ok := MultiplyRecursive(sub, bCopy, aCopy, threshold);
      if ok { a.d := bCopy.d; }
      PromiseExchanged(sub, x, y, threshold, ok, bCopy.d, a.d);
      return;
    }
    var result;
    ok, result := MultiplyHalves(sub, a.d, b.d, threshold);
    PromiseOfHalves(sub, x, y, threshold, ok, result.d);
    if ok { a.d := result.d; }
  }

  /** The long case, with a at least as long as b. */
  method MultiplyHalves(sub: Subtraction, a: seq<Digit>, b: seq<Digit>, threshold: nat) returns (ok: bool, result: Vec)
    requires 4 <= threshold <= |b| <= |a|
    ensures fresh(result) && (ok ==> Normalized(result.d)) && HalvesPromise(sub, a, b, threshold, ok, result.d)
    ensures Results(sub, a, b, threshold, ok, result.d)
    decreases |a| + |b|, 0, 1
  {
    var m := (|a| + 1) / 2;
    var z0, z1, z2;
    ok, z0, z1, z2 := PartProducts(sub, a, b, m, threshold);
    PartsMakeTheWhole(a, m);
    PartsMakeTheWhole(b, m);
    if ok {
      ghost var first := z1.d;
      ok, result := Assemble(sub, z0, z1, z2, m,
                             Value(Low(a, m)), Value(High(a, m)), Value(Low(b, m)), Value(High(b, m)));
      HalvesAssembled(sub, a, b, m, threshold, z0.d, first, z2.d, ok, result.d);
    } else {
      result := new Vec([]);
    }
  }

  lemma HalvesAssembled(sub: Subtraction, a: seq<Digit>, b: seq<Digit>, m: nat, threshold: nat,
                        z0: seq<Digit>, z1: seq<Digit>, z2: seq<Digit>, ok: bool, r: seq<Digit>)
    requires 4 <= threshold <= |b| <= |a| && m == (|a| + 1) / 2
    requires CleanBelow(sub, a, b, m, threshold) ==> PartsMultiplied(a, b, m, z0, z1, z2)
    requires AssemblyPromise(sub, z0, z1, z2, m, Value(Low(a, m)), Value(High(a, m)), Value(Low(b, m)),
                             Value(High(b, m)), ok, r)
    ensures HalvesPromise(sub, a, b, threshold, ok, r)
  {
    if CleanBelow(sub, a, b, m, threshold) {
      var a0, a1, b0, b1 := Value(Low(a, m)), Value(High(a, m)), Value(Low(b, m)), Value(High(b, m));
      PartsMakeTheWhole(a, m);
      PartsMakeTheWhole(b, m);
      ProductValue(Low(a, m), Low(b, m), a0, b0);
      ProductValue(High(a, m), High(b, m), a1, b1);
      ProductValue(PartSum(a, m), PartSum(b, m), a0 + a1, b0 + b1);
      CleanHereIs(sub, a, b, m, z0, z1, z2);
    }
  }

  ghost predicate PartsMultiplied(a: seq<Digit>, b: seq<Digit>, m: nat,
                                  z0: seq<Digit>, z1: seq<Digit>, z2: seq<Digit>) {
    && z0 == ProductDigits(Low(a, m), Low(b, m)) && z2 == ProductDigits(High(a, m), High(b, m))
    && z1 == ProductDigits(PartSum(a, m), PartSum(b, m))
  }

  lemma CleanHereIs(sub: Subtraction, a: seq<Digit>, b: seq<Digit>, m: nat,
                    z0: seq<Digit>, z1: seq<Digit>, z2: seq<Digit>)
    requires PartsMultiplied(a, b, m, z0, z1, z2)
    ensures CleanMiddle(sub, z0, z1, z2) <==> CleanHere(sub, a, b, m)
  {
  }

  lemma ProductValue(a: seq<Digit>, b: seq<Digit>, x: int, y: int)
    requires Value(a) == x && Value(b) == y
    ensures Value(ProductDigits(a, b)) == x * y
  {
  }

  /** z0, z1 and z2 before the subtractions. */
  method PartProducts(sub: Subtraction, a: seq<Digit>, b: seq<Digit>, m: nat, threshold: nat)
    returns (ok: bool, z0: Vec, z1: Vec, z2: Vec)
    requires 4 <= threshold <= |b| <= |a| && m == (|a| + 1) / 2
    ensures fresh(z0) && fresh(z1) && fresh(z2)
    ensures ok ==> z0 != z1 && z1 != z2 && Normalized(z0.d) && Normalized(z1.d) && Normalized(z2.d)
    ensures CleanBelow(sub, a, b, m, threshold) ==> ok && PartsMultiplied(a, b, m, z0.d, z1.d, z2.d)
    ensures var p0 := Computed(sub, Low(a, m), Low(b, m), threshold);
            var p1 := Computed(sub, PartSum(a, m), PartSum(b, m), threshold);
            var p2 := Computed(sub, High(a, m), High(b, m), threshold);
            if ok then p0 == Left(z0.d) && p1 == Left(z1.d) && p2 == Left(z2.d)
            else p0.Thrown? || p1.Thrown? || p2.Thrown?
    decreases |a| + |b|, 0, 0
  {
    PartsAreShorter(a, b, m);
    var a0, a1 := SplitAt(a, m);
    var b0, b1;
    if |b| <= m {
      b0 := new Vec(b);
      b1 := new Vec([0]);
    } else {
      b0, b1 := SplitAt(b, m);
    }
    ok, z0 := MultiplyCopy(sub, a0.d, b0, threshold);
    z1, z2 := z0, z0;
    if !ok { return; }
    ok, z2 := MultiplyCopy(sub, a1.d, b1, threshold);
    if !ok { return; }
    var aSum := SumOfParts(a0, a1, a, m);
    var bSum := SumOfParts(b0, b1, b, m);
    ok, z1 := MultiplyCopy(sub, aSum.d, bSum, threshold);
  }

  /** The parts reassemble to the number, and none is negative. */
  lemma PartsMakeTheWhole(s: seq<Digit>, m: nat)
    ensures Value(Low(s, m)) >= 0 && Value(High(s, m)) >= 0
    ensures Value(s) == Value(Low(s, m)) + Pow(B, m) * Value(High(s, m))
    ensures Value(PartSum(s, m)) == Value(Low(s, m)) + Value(High(s, m))
  {
    ValueBounds(Low(s, m));
    ValueBounds(High(s, m));
    if m < |s| {
      ValueSplit(s, m);
    } else {
      ValueOne(0);
    }
  }

  /** Multiplies a copy of a by b. */
  method MultiplyCopy(sub: Subtraction, a: seq<Digit>, b: Vec, threshold: nat) returns (ok: bool, z: Vec)
    requires threshold >= 4
    ensures fresh(z) && (ok ==> Normalized(z.d))
    ensures Clean(sub, a, b.d, threshold) ==> ok && z.d == ProductDigits(a, b.d)
    ensures Results(sub, a, b.d, threshold, ok, z.d)
    decreases |a| + |b.d|, if |a| < |b.d| then 1 else 0, 3
  {
    z := new Vec(a);
    ok := MultiplyRecursive(sub, z, b, threshold);
  }

  /** multiply, with the threshold of the source. */
  method Product(sub: Subtraction, a: Vec, b: Vec) returns (ok: bool)
    modifies a
    ensures Results(sub, old(a.d), old(b.d), KARATSUBA_THRESHOLD, ok, a.d)
    ensures Promise(sub, old(a.d), old(b.d), KARATSUBA_THRESHOLD, ok, a.d)
    ensures sub.AsPromised? || |old(a.d)| < 50 || |old(b.d)| < 50 ==>
              ok && Value(a.d) == old(Value(a.d)) * old(Value(b.d)) && Normalized(a.d)
  {
    if sub.AsPromised? { PromisedIsClean(a.d, b.d, KARATSUBA_THRESHOLD); }
    if a.d == [] || b.d == [] {
      ghost var x, y := a.d, b.d;
      a.d := [0];
      ValueOne(0);
      PromiseOfSchoolbook(sub, x, y, KARATSUBA_THRESHOLD, a.d);
      return true;
    }
    ok := MultiplyRecursive(sub, a, b, KARATSUBA_THRESHOLD);
  }

  // ----- When the product does not come out -----

  lemma LowestDigits(s: seq<Digit>, m: nat)
    requires 0 < m < |s|
    ensures Value(Low(s, m)) % B == s[0] && Value(High(s, m)) % B == s[m]
  {
    FirstDigit(s[..m]);
    FirstDigit(s[m..]);
  }

  lemma LowestOfProduct(a: seq<Digit>, b: seq<Digit>, x: int, y: int)
    requires Value(a) % B == x % B && Value(b) % B == y % B
    ensures ProductDigits(a, b)[0] == (x * y) % B
  {
    FirstDigit(ProductDigits(a, b));
    ModMul(Value(a), Value(b), B);
    ModMul(x, y, B);
  }

  /** The lowest digit of z0 already exceeds that of z1 by more than 1. */
  ghost predicate LowestFallsShort(a: seq<Digit>, b: seq<Digit>, m: nat)
    requires 0 < m < |a| && m < |b|
  {
    var x: int, x': int, y: int, y': int := a[0], a[m], b[0], b[m];
    (x * y) % B > ((x + x') * (y + y')) % B + 1
  }

  lemma LowestDecides(z1: seq<Digit>, z0: seq<Digit>)
    requires UnitBorrows(z1, z0) && z0 != []
    ensures var x: int, y: int := z0[0], z1[0]; x <= y + 1
  {
    assert UnitShortfall(z1, z0, 0);
  }

  lemma LowestOfLows(a: seq<Digit>, b: seq<Digit>, m: nat, x: int, y: int)
    requires 0 < m < |a| && m < |b| && x == a[0] && y == b[0]
    ensures ProductDigits(Low(a, m), Low(b, m))[0] == (x * y) % B
  {
    LowestDigits(a, m);
    LowestDigits(b, m);
    ModuloUnique(x, B, 0, x);
    ModuloUnique(y, B, 0, y);
    LowestOfProduct(Low(a, m), Low(b, m), x, y);
  }

  lemma LowestOfSums(a: seq<Digit>, b: seq<Digit>, m: nat, x: int, y: int)
    requires 0 < m < |a| && m < |b| && x == (a[0] as int) + a[m] && y == (b[0] as int) + b[m]
    ensures ProductDigits(PartSum(a, m), PartSum(b, m))[0] == (x * y) % B
  {
    LowestOfSum(a, m);
    LowestOfSum(b, m);
    LowestOfProduct(PartSum(a, m), PartSum(b, m), x, y);
  }

  lemma LowestSpoils(a: seq<Digit>, b: seq<Digit>, m: nat)
    requires 0 < m < |a| && m < |b| && LowestFallsShort(a, b, m)
    ensures !CleanHere(AsCoded, a, b, m)
  {
    var x: int, x': int, y: int, y': int := a[0], a[m], b[0], b[m];
    LowestOfLows(a, b, m, x, y);
    LowestOfSums(a, b, m, x + x', y + y');
    if CleanHere(AsCoded, a, b, m) {
      LowestDecides(ProductDigits(PartSum(a, m), PartSum(b, m)), ProductDigits(Low(a, m), Low(b, m)));
    }
  }

  /** Four digits of the operands are enough to see many failures. */
  lemma LowestFallsShortFails(a: seq<Digit>, b: seq<Digit>, m: nat, threshold: nat)
    requires 4 <= threshold <= |b| <= |a| && m == (|a| + 1) / 2 < |b| && LowestFallsShort(a, b, m)
    ensures !Clean(AsCoded, a, b, threshold)
  {
    LowestSpoils(a, b, m);
  }

  lemma LowestOfSum(s: seq<Digit>, m: nat)
    requires 0 < m < |s|
    ensures Value(PartSum(s, m)) % B == ((s[0] as int) + s[m]) % B
  {
    LowestDigits(s, m);
    ModAdd(Value(Low(s, m)), Value(High(s, m)), B);
  }

  /** Two numbers of 50 digits whose product does not come out: the product of the low parts ends in B - 2, the middle
      product in 0. */
  lemma KaratsubaCanFail() returns (a: seq<Digit>, b: seq<Digit>)
    ensures |a| == |b| == 50 && Normalized(a) && Normalized(b)
    ensures PartsClean(AsCoded, a, b, KARATSUBA_THRESHOLD) && !Clean(AsCoded, a, b, KARATSUBA_THRESHOLD)
  {
    a := seq(50, k => if k == 0 then 2 else if k == 49 then 1 else 0);
    b := seq(50, k => if k == 0 then B - 1 else if k == 25 || k == 49 then 1 else 0);
    ModuloUnique(2 * (B - 1), B, 1, B - 2);
    ModuloUnique(2 * B, B, 2, 0);
    assert LowestFallsShort(a, b, 25);
    LowestFallsShortFails(a, b, 25, KARATSUBA_THRESHOLD);
    ShortPartsAreClean(AsCoded, a, b, KARATSUBA_THRESHOLD);
  }
}
