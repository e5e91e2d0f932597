/** Two's-complement masking, as the ring queues use it to turn tickets into slots. */
module Masks {

  ghost predicate PowerOfTwo(n: int)
    decreases n
  {
    n == 1 || (n > 1 && n % 2 == 0 && PowerOfTwo(n / 2))
  }

  /** `x & m` for an unbounded two's-complement x and a non-negative mask m. */
  function And(x: int, m: nat): nat
    decreases m
  {
    if m == 0 then 0 else 2 * And(x / 2, m / 2) + if x % 2 == 1 && m % 2 == 1 then 1 else 0
  }

  /** Masking with `size - 1` is reduction modulo `size` exactly because sizes are powers of two;
      this covers the negative first ticket too. */
  lemma {:induction false} MaskIsModulo(x: int, size: nat)
    requires PowerOfTwo(size)
    ensures And(x, size - 1) == x % size
    decreases size
  {
    if size > 1 {
      var half := size / 2;
      MaskIsModulo(x / 2, half);
      assert (size - 1) / 2 == half - 1 && (size - 1) % 2 == 1;
      HalveModulo(x, half);
    }
  }

  lemma HalveModulo(x: int, half: nat)
    requires half > 0
    ensures x % (2 * half) == 2 * ((x / 2) % half) + x % 2
  {
    var q, r := (x / 2) / half, (x / 2) % half;
    assert x == (2 * half) * q + (2 * r + x % 2) by {
      assert x / 2 == half * q + r;
    }
    ModuloUnique(x, 2 * half, q, 2 * r + x % 2);
  }

  lemma MultipleAtLeast(d: nat, k: int)
    requires k > 0
    ensures d * k >= d
  {
    if k > 1 {
      MultipleAtLeast(d, k - 1);
      assert d * k == d * (k - 1) + d;
    }
  }

  lemma SmallMultiple(d: nat, k: int)
    requires d * k < d && -(d * k) < d
    ensures k == 0
  {
    if k > 0 {
      MultipleAtLeast(d, k);
    } else if k < 0 {
      MultipleAtLeast(d, -k);
    }
  }

  lemma ModuloUnique(x: int, d: int, q: int, r: int)
    requires d > 0 && 0 <= r < d && x == d * q + r
    ensures x % d == r && x / d == q
  {
    assert d * (x / d - q) == r - x % d;
    SmallMultiple(d, x / d - q);
  }

  /** The buffer position of ticket x. */
  function Slot(size: nat, x: int): (r: nat)
    requires PowerOfTwo(size)
    ensures r == x % size && r < size
  {
    MaskIsModulo(x, size);
    And(x, size - 1)
  }

  /** Tickets less than one lap apart use different slots. */
  lemma LapIsInjective(size: nat, x: int, y: int)
    requires PowerOfTwo(size)
    requires x != y && x - y < size && y - x < size
    ensures Slot(size, x) != Slot(size, y)
  {
    if x % size == y % size { SameRemainder(x, y, size); }
  }

  lemma SameRemainder(x: int, y: int, d: nat)
    requires d > 0 && x % d == y % d && x - y < d && y - x < d
    ensures x == y
  {
    var a, b := x / d, y / d;
    var r := x % d;
    assert x == d * a + r && y == d * b + r;
    assert d * (a - b) == x - y;
    SmallMultiple(d, a - b);
  }

  /** Tickets exactly one lap apart share a slot. */
  lemma LapSharesSlot(size: nat, x: int)
    requires PowerOfTwo(size)
    ensures Slot(size, x - size) == Slot(size, x)
  {
    ModuloUnique(x - size, size, x / size - 1, x % size);
  }
}
