/** Schoolbook arithmetic on little-endian limb vectors (cpp/lib/bign/BigNumberNaive.cpp) with 64-bit
    digits (cpp/lib/bign/BigDigit.h). */
module Limbs {
  import opened Masks
  import opened NumberTheory

  const B: int := 0x1_0000_0000_0000_0000

  type Digit = d: int | 0 <= d < B

  /** A std::vector<BigDigit>, passed by reference. */
  class Vec {
    var d: seq<Digit>

    constructor (d: seq<Digit>)
      ensures this.d == d
    {
      this.d := d;
    }
  }

  /** The number a vector stands for. */
  function Value(s: seq<Digit>): int {
    if s == [] then 0 else s[0] + B * Value(s[1..])
  }

  ghost predicate Normalized(s: seq<Digit>) {
    |s| >= 1 && (|s| > 1 ==> s[|s| - 1] != 0)
  }

  // ----- Values -----

  lemma {:induction false} ValueAppend(s: seq<Digit>, t: seq<Digit>)
    ensures Value(s + t) == Value(s) + Pow(B, |s|) * Value(t)
    decreases |s|
  {
    if s == [] {
      assert s + t == t;
    } else {
      ValueAppend(s[1..], t);
      assert (s + t)[1..] == s[1..] + t;
      assert B * (Pow(B, |s| - 1) * Value(t)) == Pow(B, |s|) * Value(t);
    }
  }

  lemma ValueOne(x: Digit)
    ensures Value([x]) == x
  {
    assert Value([x][1..]) == 0;
  }

  lemma ValueTake(s: seq<Digit>, i: nat)
    requires i < |s|
    ensures Value(s[..i + 1]) == Value(s[..i]) + Pow(B, i) * s[i]
  {
    assert s[..i + 1] == s[..i] + [s[i]];
    ValueAppend(s[..i], [s[i]]);
    ValueOne(s[i]);
  }

  lemma ValueSplit(s: seq<Digit>, i: nat)
    requires i <= |s|
    ensures Value(s) == Value(s[..i]) + Pow(B, i) * Value(s[i..])
  {
    assert s == s[..i] + s[i..];
    ValueAppend(s[..i], s[i..]);
  }

  /** Replacing digit i changes the value by the difference at weight B^i. */
  lemma ValueSet(s: seq<Digit>, i: nat, x: Digit)
    requires i < |s|
    ensures Value(s[i := x]) == Value(s) + Pow(B, i) * (x - s[i])
  {
    var t := s[i := x];
    ValueSplit(s, i);
    ValueSplit(t, i);
    assert t[..i] == s[..i];
    assert t[i..][1..] == s[i..][1..];
    var rest := B * Value(s[i..][1..]);
    assert Pow(B, i) * (x + rest) == Pow(B, i) * (s[i] + rest) + Pow(B, i) * (x - s[i]);
  }

  lemma {:induction false} ValueBounds(s: seq<Digit>)
    ensures 0 <= Value(s) < Pow(B, |s|)
    decreases |s|
  {
    if s != [] {
      ValueBounds(s[1..]);
      assert Value(s) <= B - 1 + B * (Pow(B, |s| - 1) - 1);
    }
  }

  lemma {:induction false} PowMonotone(e: nat, f: nat)
    requires e <= f
    ensures Pow(B, e) <= Pow(B, f)
    decreases f
  {
    if e < f {
      PowMonotone(e, f - 1);
      PowPositive(B, f - 1);
    }
  }

  /** A normalized vector has as few digits as its value allows. */
  lemma NormalizedLength(s: seq<Digit>, k: nat)
    requires Normalized(s) && Value(s) < Pow(B, k) && k >= 1
    ensures |s| <= k
  {
    if |s| > k {
      NormalizedAtLeast(s);
      PowMonotone(k, |s| - 1);
    }
  }

  lemma NormalizedAtLeast(s: seq<Digit>)
    requires Normalized(s) && |s| > 1
    ensures Value(s) >= Pow(B, |s| - 1)
  {
    var n := |s| - 1;
    ValueTake(s, n);
    assert s[..n + 1] == s;
    ValueBounds(s[..n]);
    PowPositive(B, n);
    ProductAtLeast(Pow(B, n), 1, Pow(B, n), s[n]);
  }

  lemma DropTopZero(s: seq<Digit>)
    requires s != [] && s[|s| - 1] == 0
    ensures Value(s[..|s| - 1]) == Value(s)
  {
    ValueTake(s, |s| - 1);
    assert s[..|s|] == s;
  }

  lemma PushFront(s: seq<Digit>)
    ensures Value([0] + s) == B * Value(s)
  {
    assert ([0] + s)[1..] == s;
  }

  // ----- Digits -----

  /** BigDigit::add, with the overflow as second result. */
  function DigitAdd(x: Digit, y: Digit): (r: (Digit, Digit))
    ensures x + y == r.0 + B * r.1 && r.1 <= 1
  {
    ((x + y) % B, (x + y) / B)
  }

  /** BigDigit::mul, with the overflow as second result. */
  function DigitMul(x: Digit, y: Digit): (r: (Digit, Digit))
    ensures x * y == r.0 + B * r.1
  {
    NonNegativeProduct(x, y);
    ProductAtLeast(x, y, B - 1, B - 1);
    ((x * y) % B, (x * y) / B)
  }

  // ----- BigNumberNaive -----

  method Normalize(a: Vec)
    modifies a
    ensures Value(a.d) == old(Value(a.d)) && a.d <= old(a.d)
    ensures old(a.d) != [] ==> Normalized(a.d)
    ensures old(a.d) == [] ==> a.d == []
  {
    while |a.d| > 1 && a.d[|a.d| - 1] == 0
      invariant Value(a.d) == old(Value(a.d)) && a.d <= old(a.d)
      invariant old(a.d) != [] ==> a.d != []
      decreases |a.d|
    {
      DropTopZero(a.d);
      a.d := a.d[..|a.d| - 1];
    }
  }

  /** Adds d at position i, rippling the carry; past the end it is pushed on top. */
  method AddDigit(a: Vec, d: Digit, i: nat)
    modifies a
    ensures Value(a.d) == old(Value(a.d)) + Pow(B, if i <= old(|a.d|) then i else old(|a.d|)) * d
    ensures old(|a.d|) <= |a.d| <= old(|a.d|) + 1
    ensures i >= old(|a.d|) ==> a.d == old(a.d) + [d]
    ensures i < old(|a.d|) && old(a.d)[i] + d < B ==> a.d == old(a.d)[i := old(a.d)[i] + d]
    ensures i < old(|a.d|) ==> a.d[..i] == old(a.d)[..i] && a.d[i] == (old(a.d)[i] + d) % B
    ensures |a.d| > old(|a.d|) && (d > 0 || i < old(|a.d|)) ==> a.d[old(|a.d|)] > 0
    decreases |a.d| - i
  {
    if i >= |a.d| {
      ValueAppend(a.d, [d]);
      ValueOne(d);
      a.d := a.d + [d];
      return;
    }
    var (sum, ov) := DigitAdd(a.d[i], d);
    ValueSet(a.d, i, sum);
    ghost var p := Pow(B, i);
    assert p * (sum - a.d[i]) == p * d - (B * p) * ov by { assert sum - a.d[i] == d - B * ov; }
    a.d := a.d[i := sum];
    if ov != 0 {
      AddDigit(a, ov, i + 1);
    }
  }

  // ----- Addition, of two vectors or of one to itself -----

  /** The number standing from digit i up. */
  function Above(s: seq<Digit>, i: nat): int
    requires i <= |s|
  {
    Value(s[i..])
  }

  lemma AboveStep(s: seq<Digit>, i: nat)
    requires i < |s|
    ensures Above(s, i) == s[i] + B * Above(s, i + 1)
  {
    assert s[i..][1..] == s[i + 1..];
  }

  /** No digit below position i overflows when it is doubled. */
  ghost predicate HalvesOnly(s: seq<Digit>, i: nat) {
    forall k | 0 <= k < i && k < |s| :: 2 * s[k] < B
  }

  /** What adding d at a position i inside a vector does. */
  ghost predicate Added(was: seq<Digit>, now: seq<Digit>, d: Digit, i: nat) {
    && i < |was| <= |now| <= |was| + 1
    && Value(now) == Value(was) + Pow(B, i) * d
    && now[..i] == was[..i] && now[i] == (was[i] + d) % B
    && (was[i] + d < B ==> now == was[i := was[i] + d])
    && (|now| > |was| ==> now[|was|] > 0)
  }

  lemma AddedAbove(was: seq<Digit>, now: seq<Digit>, d: Digit, i: nat)
    requires Added(was, now, d, i)
    ensures Above(now, i) == Above(was, i) + d
  {
    ValueSplit(was, i);
    ValueSplit(now, i);
    PowPositive(B, i);
    SumOfParts(Pow(B, i), Value(was[..i]), Above(was, i), Above(now, i), d);
  }

  lemma SumOfParts(p: int, low: int, x: int, y: int, d: int)
    requires p > 0 && low + p * y == low + p * x + p * d
    ensures y == x + d
  {
    assert p * (y - x - d) == 0;
    SmallMultiple(p, y - x - d);
  }

  /** The carry into the digits above. */
  lemma CarryAbove(was: seq<Digit>, now: seq<Digit>, d: Digit, i: nat)
    requires Added(was, now, d, i)
    ensures Above(now, i + 1) == Above(was, i + 1) + if was[i] + d >= B then 1 else 0
  {
    AddedAbove(was, now, d, i);
    AboveStep(was, i);
    AboveStep(now, i);
    DigitSum(was[i] + d);
  }

  lemma DigitSum(x: int)
    requires 0 <= x < 2 * B
    ensures x == x % B + B * if x >= B then 1 else 0
  {
  }

  /** A vector that is being added to itself, before digit i is.  The sum of the value and of the part to come never
      falls below twice the start, and is exactly that as long as no doubled digit overflowed; a digit is pushed at most
      once, as a unit with nothing but zeros left below it. */
  ghost predicate Doubling(start: seq<Digit>, now: seq<Digit>, i: nat) {
    && i <= |now| && |start| <= |now| <= |start| + 1
    && Value(now) + Pow(B, i) * Above(now, i) >= 2 * Value(start)
    && (Value(now) + Pow(B, i) * Above(now, i) == 2 * Value(start) <==> HalvesOnly(start, i))
    && (HalvesOnly(start, i) ==> |now| == |start| && now[i..] == start[i..])
    && (|now| > |start| ==> Above(now, i) == if i <= |start| then Pow(B, |start| - i) else 0)
  }

  lemma DoublingAlgebra(v: int, p: int, x: int, h: int, c: int)
    ensures (v + p * x) + (B * p) * (h + c) == v + p * (x + B * h) + (B * p) * c
  {
    assert p * (x + B * h) == p * x + (B * p) * h;
  }

  lemma DoublingValue(was: seq<Digit>, now: seq<Digit>, i: nat, p: int)
    requires i < |was| && Added(was, now, was[i], i) && p == Pow(B, i)
    ensures Value(now) + (B * p) * Above(now, i + 1) ==
              Value(was) + p * Above(was, i) + (B * p) * if 2 * was[i] >= B then 1 else 0
  {
    CarryAbove(was, now, was[i], i);
    AboveStep(was, i);
    DoublingAlgebra(Value(was), p, was[i], Above(was, i + 1), if 2 * was[i] >= B then 1 else 0);
  }

  lemma TopAtLeast(s: seq<Digit>, i: nat)
    requires i < |s| && s[|s| - 1] > 0
    ensures Above(s, i) >= Pow(B, |s| - 1 - i)
  {
    var t := s[i..];
    if |t| == 1 {
      ValueOne(t[0]);
      assert t == [t[0]];
    } else {
      NormalizedAtLeast(t);
    }
  }

  /** A digit is pushed when the part above was full, which leaves a unit over zeros. */
  lemma PushLeavesUnit(was: seq<Digit>, now: seq<Digit>, i: nat)
    requires i < |was| < |now| && Added(was, now, was[i], i)
    ensures Above(now, i + 1) == Pow(B, |was| - (i + 1))
  {
    CarryAbove(was, now, was[i], i);
    ValueBounds(was[i + 1..]);
    TopAtLeast(now, i + 1);
  }

  /** After a push, nothing overflows any more. */
  lemma UnitIsDoubled(was: seq<Digit>, now: seq<Digit>, i: nat, n: nat)
    requires i < |was| == n + 1 && Added(was, now, was[i], i)
    requires Above(was, i) == if i <= n then Pow(B, n - i) else 0
    ensures |now| == |was| && Above(now, i + 1) == if i + 1 <= n then Pow(B, n - (i + 1)) else 0
  {
    CarryAbove(was, now, was[i], i);
    AboveStep(was, i);
    if i < n {
      LoneUnit(was[i], Above(was, i + 1), Pow(B, n - i - 1));
    } else {
      assert was[i + 1..] == [];
    }
  }

  /** The push happens at most once. */
  lemma DoublingLength(start: seq<Digit>, was: seq<Digit>, now: seq<Digit>, i: nat)
    requires i < |was| && Doubling(start, was, i) && Added(was, now, was[i], i)
    ensures |now| <= |start| + 1
    ensures |now| > |start| ==> Above(now, i + 1) == if i + 1 <= |start| then Pow(B, |start| - (i + 1)) else 0
  {
    if |was| > |start| {
      UnitIsDoubled(was, now, i, |start|);
    } else if |now| > |start| {
      PushLeavesUnit(was, now, i);
    }
  }

  lemma LoneUnit(x: int, h: int, p: int)
    requires 0 <= x < B && x + B * h == B * p
    ensures x == 0 && h == p
  {
    assert B * (p - h) == x;
    SmallMultiple(B, p - h);
  }

  lemma DoublingStep(start: seq<Digit>, was: seq<Digit>, now: seq<Digit>, i: nat)
    requires i < |was| && Doubling(start, was, i) && Added(was, now, was[i], i)
    ensures Doubling(start, now, i + 1)
  {
    var p := Pow(B, i);
    DoublingValue(was, now, i, p);
    DoublingLength(start, was, now, i);
    PowPositive(B, i + 1);
    if HalvesOnly(start, i) {
      assert was[i] == start[i] by { assert was[i..][0] == start[i..][0]; }
      if 2 * start[i] < B {
        assert now[i + 1..] == was[i..][1..] == start[i..][1..];
      }
    }
  }

  /** In-place addition.  A vector added to itself is written while it is read: the result is twice the number exactly
      when no digit is B / 2 or more, and too large otherwise. */
  method Add(a: Vec, b: Vec)
    modifies a
    ensures a != b ==> Value(a.d) == old(Value(a.d)) + Value(b.d)
    ensures a == b ==> Value(a.d) >= 2 * old(Value(a.d))
    ensures a == b ==> (Value(a.d) == 2 * old(Value(a.d)) <==> forall k | 0 <= k < old(|a.d|) :: 2 * old(a.d)[k] < B)
    ensures old(a.d) != [] || old(b.d) != [] ==> Normalized(a.d)
  {
    ghost var start := a.d;
    var i := 0;
    assert a.d[0..] == a.d;
    while i < |b.d|
      invariant 0 <= i <= |b.d| && i <= |a.d| && |start| <= |a.d| && (a != b ==> b.d == old(b.d))
      invariant a != b ==> Value(a.d) == Value(start) + Value(b.d[..i])
      invariant a == b ==> Doubling(start, a.d, i)
      decreases (if a == b then |start| + 1 else |b.d|) - i
    {
      ghost var was := a.d;
      if a != b { ValueTake(b.d, i); }
      AddDigit(a, b.d[i], i);
      if a == b { DoublingStep(start, was, a.d, i); }
      i := i + 1;
    }
    if a == b {
      assert a.d[i..] == [] && Pow(B, i) * 0 == 0;
    } else {
      assert b.d[..|b.d|] == b.d;
    }
    Normalize(a);
  }

  /** One cell of the schoolbook product: the carry fits in one digit. */
  lemma CarryFits(x: Digit, y: Digit, carry: Digit, cell: Digit, prod: Digit, prodOv: Digit, low: Digit, totalOv: int,
                  sum: Digit, sumOv: int)
    requires x * y == prod + B * prodOv && prod + carry == low + B * totalOv && cell + low == sum + B * sumOv
    requires totalOv >= 0 && sumOv >= 0
    ensures sum + B * (prodOv + totalOv + sumOv) == x * y + carry + cell
    ensures prodOv + totalOv + sumOv < B
  {
    ProductAtLeast(x, y, B - 1, B - 1);
  }

  /** The row algebra of one cell, with p and q the weights of the row and of the cell within it. */
  lemma CellAlgebra(v: int, v': int, was: int, p: int, q: int, va: int, x: int, y: int,
                    cell: int, carry: int, sum: int, carry': int)
    requires v + p * q * carry == was + p * (va * y)
    requires v' == v + p * q * (sum - cell)
    requires sum + B * carry' == x * y + carry + cell
    ensures v' + p * (B * q) * carry' == was + p * ((va + q * x) * y)
  {
    var pq := p * q;
    assert p * (B * q) * carry' == pq * (B * carry');
    assert p * ((va + q * x) * y) == p * (va * y) + pq * (x * y);
    assert pq * (sum - cell) + pq * (B * carry') == pq * (x * y) + pq * carry;
  }

  /** One row of the schoolbook product: adds a * y at weight B^bi. */
  method MultiplyRow(product: Vec, a: seq<Digit>, y: Digit, bi: nat)
    requires bi + |a| < |product.d|
    requires forall k | bi + |a| <= k < |product.d| :: product.d[k] == 0
    modifies product
    ensures Value(product.d) == old(Value(product.d)) + Pow(B, bi) * (Value(a) * y)
    ensures |product.d| == old(|product.d|)
    ensures forall k | bi + |a| < k < |product.d| :: product.d[k] == 0
  {
    var carry: Digit := 0;
    var ai := 0;
    while ai < |a|
      invariant 0 <= ai <= |a| && |product.d| == old(|product.d|)
      invariant Value(product.d) + Pow(B, bi) * Pow(B, ai) * carry ==
                old(Value(product.d)) + Pow(B, bi) * (Value(a[..ai]) * y)
      invariant forall k | bi + |a| <= k < |product.d| :: product.d[k] == 0
    {
      var cell := product.d[ai + bi];
      var (prod, prodOv) := DigitMul(a[ai], y);
      var (low, totalOv) := DigitAdd(prod, carry);
      var (sum, sumOv) := DigitAdd(cell, low);
      CarryFits(a[ai], y, carry, cell, prod, prodOv, low, totalOv, sum, sumOv);
      ghost var v := Value(product.d);
      ValueSet(product.d, ai + bi, sum);
      PowAdd(B, bi, ai);
      product.d := product.d[ai + bi := sum];
      ValueTake(a, ai);
      CellAlgebra(v, Value(product.d), old(Value(product.d)), Pow(B, bi), Pow(B, ai), Value(a[..ai]), a[ai], y,
                  cell, carry, sum, prodOv + totalOv + sumOv);
      carry := prodOv + totalOv + sumOv;
      ai := ai + 1;
    }
    assert a[..|a|] == a;
    if carry != 0 {
      PowAdd(B, bi, |a|);
      var finalIdx := bi + |a|;
      if finalIdx >= |product.d| {
        assert false; // the push_back branch is never reached
      } else {
        AddDigit(product, carry, finalIdx);
      }
    }
  }

  /** a := a * b; the vectors may be the same. */
  method Multiply(a: Vec, b: Vec)
    modifies a
    ensures Value(a.d) == old(Value(a.d)) * old(Value(b.d)) && Normalized(a.d)
  {
    if a.d == [] || b.d == [] {
      a.d := [0];
      ValueOne(0);
      return;
    }
    var zeros: seq<Digit> := seq(|a.d| + |b.d|, _ => 0);
    var product := new Vec(zeros);
    ValueOfZeros(product.d);
    var bi := 0;
    while bi < |b.d|
      invariant 0 <= bi <= |b.d| && |product.d| == |a.d| + |b.d|
      invariant a.d == old(a.d) && b.d == old(b.d)
      invariant Value(product.d) == Value(a.d) * Value(b.d[..bi])
      invariant forall k | bi + |a.d| <= k < |product.d| :: product.d[k] == 0
    {
      MultiplyRow(product, a.d, b.d[bi], bi);
      ValueTake(b.d, bi);
      assert Value(a.d) * (Value(b.d[..bi]) + Pow(B, bi) * b.d[bi]) ==
             Value(a.d) * Value(b.d[..bi]) + Pow(B, bi) * (Value(a.d) * b.d[bi]) by {
        RowAlgebra(Value(a.d), Value(b.d[..bi]), Pow(B, bi), b.d[bi]);
      }
      bi := bi + 1;
    }
    assert b.d[..|b.d|] == b.d;
    Normalize(product);
    a.d := product.d;
  }

  lemma RowAlgebra(a: int, b: int, p: int, y: int)
    ensures a * (b + p * y) == a * b + p * (a * y)
  {
  }

  lemma {:induction false} ValueOfZeros(s: seq<Digit>)
    requires forall k | 0 <= k < |s| :: s[k] == 0
    ensures Value(s) == 0
    decreases |s|
  {
    if s != [] { ValueOfZeros(s[1..]); }
  }

  /** -1, 0 or 1 as x is less than, equal to or greater than y. */
  function Order(x: int, y: int): int {
    if x < y then -1 else if x > y then 1 else 0
  }

  /** Vectors of different lengths are ordered by length, others by value; without leading zeros, all are ordered by
      value. */
  method Compare(a: seq<Digit>, b: seq<Digit>) returns (r: int)
    ensures r == if |a| == |b| then Order(Value(a), Value(b)) else Order(|a|, |b|)
    ensures Normalized(a) && Normalized(b) ==> r == Order(Value(a), Value(b))
    ensures r == 0 <==> a == b
  {
    if |a| != |b| {
      if Normalized(a) && Normalized(b) { LongerIsGreater(a, b); }
      return if |a| < |b| then -1 else 1;
    }
    var i := |a| - 1;
    while i >= 0
      invariant -1 <= i < |a|
      invariant forall k | i < k < |a| :: a[k] == b[k]
    {
      if a[i] != b[i] {
        HighestDifferenceDecides(a, b, i);
        return if a[i] < b[i] then -1 else 1;
      }
      i := i - 1;
    }
    assert a == b;
    return 0;
  }

  lemma LongerIsGreater(a: seq<Digit>, b: seq<Digit>)
    requires Normalized(a) && Normalized(b) && |a| != |b|
    ensures Value(a) < Value(b) <==> |a| < |b|
    ensures Value(a) != Value(b)
  {
    if |a| < |b| { ShorterIsLess(a, b); } else { ShorterIsLess(b, a); }
  }

  lemma ShorterIsLess(a: seq<Digit>, b: seq<Digit>)
    requires Normalized(b) && |a| < |b| && |b| > 1
    ensures Value(a) < Value(b)
  {
    ValueBounds(a);
    NormalizedAtLeast(b);
    PowMonotone(|a|, |b| - 1);
  }

  lemma HighestDifferenceDecides(a: seq<Digit>, b: seq<Digit>, i: nat)
    requires |a| == |b| && i < |a| && (forall k | i < k < |a| :: a[k] == b[k]) && a[i] != b[i]
    ensures Value(a) < Value(b) <==> a[i] < b[i]
    ensures Value(a) != Value(b)
  {
    if a[i] < b[i] { HighestDifferenceLess(a, b, i); } else { HighestDifferenceLess(b, a, i); }
  }

  lemma HighestDifferenceLess(a: seq<Digit>, b: seq<Digit>, i: nat)
    requires |a| == |b| && i < |a| && (forall k | i < k < |a| :: a[k] == b[k]) && a[i] < b[i]
    ensures Value(a) < Value(b)
  {
    assert a[i + 1..] == b[i + 1..];
    ValueSplit(a, i + 1);
    ValueSplit(b, i + 1);
    ValueTake(a, i);
    ValueTake(b, i);
    ValueBounds(a[..i]);
    ValueBounds(b[..i]);
    PowPositive(B, i);
    ProductAtLeast(Pow(B, i), 1, Pow(B, i), b[i] - a[i]);
    assert Pow(B, i) * b[i] == Pow(B, i) * a[i] + Pow(B, i) * (b[i] - a[i]);
  }
}
