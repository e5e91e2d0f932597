/** A byte as a number. */
module ByteNumbers {
  lemma SmallByte(low: int)
    requires 0 <= low < 256
    ensures (low as bv8) as int == low
  {
  }
}

/** Bit vectors as numbers. */
module BitNumbers {
  lemma SameBits(x: bv32, y: bv32)
    requires x as nat == y as nat
    ensures x == y
  {
    assert (x as nat) as bv32 == x;
    assert (y as nat) as bv32 == y;
  }

  lemma JoinedNumber(a: bv8, b: bv8, c: bv8, d: bv8, w: bv32)
    requires w == ((a as bv32) << 24) | ((b as bv32) << 16) | ((c as bv32) << 8) | (d as bv32)
    ensures w as nat == 0x100_0000 * (a as nat) + 0x1_0000 * (b as nat) + 0x100 * (c as nat) + (d as nat)
  {
  }
}

/** What the parts of SHA-256 mean: the functions on words bit by bit, and words and length fields as big-endian numbers
    (FIPS 180-4, sections 3.1, 3.2, 4.1.2 and 5.1.1). */
module Sha256Parts {
  import opened BitNumbers
  import opened ByteNumbers
  import opened NumberTheory
  import opened Sha256Standard

  // ----- Bits -----

  /** Bit k of a word, the lowest being bit 0. */
  predicate Bit(x: Word, k: bv32)
    requires k < 32
  {
    (x.bits >> k) & 1 == 1
  }

  predicate TwoOf(a: bool, b: bool, c: bool) {
    (a && b) || (a && c) || (b && c)
  }

  predicate Odd(a: bool, b: bool, c: bool) {
    (a != b) != c
  }

  /** Every bit of x chooses between those of y and z. */
  lemma ChBit(x: Word, y: Word, z: Word, k: bv32)
    requires k < 32
    ensures Bit(Ch(x, y, z), k) <==> if Bit(x, k) then Bit(y, k) else Bit(z, k)
  {
  }

  lemma MajBit(x: Word, y: Word, z: Word, k: bv32)
    requires k < 32
    ensures Bit(Maj(x, y, z), k) <==> TwoOf(Bit(x, k), Bit(y, k), Bit(z, k))
  {
  }

  /** Three rotations added bit by bit. */
  lemma BigSigmaBits(x: Word, k: bv32)
    requires k < 32
    ensures Bit(BigSigma0(x), k) <==> Odd(Bit(x, (k + 2) % 32), Bit(x, (k + 13) % 32), Bit(x, (k + 22) % 32))
    ensures Bit(BigSigma1(x), k) <==> Odd(Bit(x, (k + 6) % 32), Bit(x, (k + 11) % 32), Bit(x, (k + 25) % 32))
  {
  }

  /** Two rotations and a shift, which drops the lowest bits. */
  lemma SmallSigmaBits(x: Word, k: bv32)
    requires k < 32
    ensures Bit(SmallSigma0(x), k) <==>
              Odd(Bit(x, (k + 7) % 32), Bit(x, (k + 18) % 32), k < 29 && Bit(x, (k + 3) % 32))
    ensures Bit(SmallSigma1(x), k) <==>
              Odd(Bit(x, (k + 17) % 32), Bit(x, (k + 19) % 32), k < 22 && Bit(x, (k + 10) % 32))
  {
  }

  /** The carry into bit k of a sum. */
  ghost predicate Carry(x: Word, y: Word, k: bv32)
    requires k < 32
    decreases k
  {
    k > 0 && TwoOf(Bit(x, k - 1), Bit(y, k - 1), Carry(x, y, k - 1))
  }

  /** The bits in which a sum differs from the addition without carries. */
  function Changed(x: Word, y: Word): Word {
    Word(x.bits ^ y.bits ^ (x.bits + y.bits))
  }

  lemma {:induction false} ChangedByCarry(x: Word, y: Word, k: bv32)
    requires k < 32
    ensures Bit(Changed(x, y), k) <==> Carry(x, y, k)
    decreases k
  {
    if k == 0 {
      LowestUnchanged(x, y);
    } else {
      ChangedByCarry(x, y, k - 1);
      ChangedNext(x, y, k);
    }
  }

  lemma LowestUnchanged(x: Word, y: Word)
    ensures !Bit(Changed(x, y), 0)
  {
  }

  lemma ChangedNext(x: Word, y: Word, k: bv32)
    requires 0 < k < 32
    ensures Bit(Changed(x, y), k) <==> TwoOf(Bit(x, k - 1), Bit(y, k - 1), Bit(Changed(x, y), k - 1))
  {
  }

  lemma SumBit(x: Word, y: Word, k: bv32, carry: bool)
    requires k < 32 && (Bit(Changed(x, y), k) <==> carry)
    ensures Bit(Add(x, y), k) <==> Odd(Bit(x, k), Bit(y, k), carry)
  {
  }

  /** Addition carries from bit to bit and drops the last carry. */
  lemma AddBit(x: Word, y: Word, k: bv32) returns (carry: bool)
    requires k < 32
    ensures carry <==> Carry(x, y, k)
    ensures Bit(Add(x, y), k) <==> Odd(Bit(x, k), Bit(y, k), carry)
  {
    carry := Carry(x, y, k);
    ChangedByCarry(x, y, k);
    SumBit(x, y, k, carry);
  }

  // ----- Numbers -----

  /** The number that bytes stand for, most significant first. */
  function Numeral(s: seq<Byte>): nat {
    if s == [] then 0 else 256 * Numeral(s[..|s| - 1]) + (s[|s| - 1].bits as nat)
  }

  function FourBytes(a: Byte, b: Byte, c: Byte, d: Byte): nat {
    0x100_0000 * (a.bits as nat) + 0x1_0000 * (b.bits as nat) + 0x100 * (c.bits as nat) + (d.bits as nat)
  }

  lemma JoinedIsNumber(a: Byte, b: Byte, c: Byte, d: Byte)
    ensures Joined(a, b, c, d).bits as nat == FourBytes(a, b, c, d)
  {
    JoinedNumber(a.bits, b.bits, c.bits, d.bits, Joined(a, b, c, d).bits);
  }

  lemma NumeralOfFour(s: seq<Byte>)
    requires |s| == 4
    ensures Numeral(s) == FourBytes(s[0], s[1], s[2], s[3])
  {
    var s1, s2, s3 := s[..1], s[..2], s[..3];
    assert s1[..0] == [] && s2[..1] == s1 && s3[..2] == s2;
    assert Numeral(s1) == s[0].bits as nat;
    assert Numeral(s2) == 256 * Numeral(s1) + (s[1].bits as nat);
    assert Numeral(s3) == 256 * Numeral(s2) + (s[2].bits as nat);
  }

  /** Words are read from blocks in big-endian order. */
  lemma WordIsNumeral(block: seq<Byte>, j: nat)
    requires 4 * j + 4 <= |block|
    ensures WordAt(block, j).bits as nat == Numeral(block[4 * j..4 * j + 4])
  {
    JoinedIsNumber(block[4 * j], block[4 * j + 1], block[4 * j + 2], block[4 * j + 3]);
    NumeralOfFour(block[4 * j..4 * j + 4]);
  }

  /** The bytes of a word are read back as that word. */
  lemma BytesReadBack(x: Word)
    ensures WordAt(BytesOf(x), 0) == x
  {
  }

  /** Words are written in big-endian order. */
  lemma BytesAreNumeral(x: Word)
    ensures Numeral(BytesOf(x)) == x.bits as nat
  {
    BytesReadBack(x);
    WordIsNumeral(BytesOf(x), 0);
    assert BytesOf(x)[0..4] == BytesOf(x);
  }

  /** The last n bytes of a number. */
  function LastBytes(x: nat, n: nat): (s: seq<Byte>)
    ensures |s| == n
  {
    if n == 0 then [] else LastBytes(x / 256, n - 1) + [ByteOf(x)]
  }

  lemma {:induction false} LastBytesAreNumeral(x: nat, n: nat)
    requires x < Pow(256, n)
    ensures Numeral(LastBytes(x, n)) == x
    decreases n
  {
    if n > 0 {
      LastBytesAreNumeral(x / 256, n - 1);
      assert LastBytes(x, n)[..n - 1] == LastBytes(x / 256, n - 1);
      ByteIs(x);
    }
  }

  lemma ByteIs(x: nat)
    ensures ByteOf(x).bits as nat == x % 256
  {
    SmallByte(x % 256);
  }

  lemma FourLastBytes(x: nat, n: nat)
    ensures LastBytes(x, n + 4) == LastBytes(x / 0x1_0000_0000, n) +
              [ByteOf(x / 0x100_0000), ByteOf(x / 0x1_0000), ByteOf(x / 0x100), ByteOf(x)]
  {
    var a, b, c := x / 0x100, x / 0x1_0000, x / 0x100_0000;
    Shifted(x);
    assert LastBytes(x, n + 4) == LastBytes(a, n + 3) + [ByteOf(x)];
    assert LastBytes(a, n + 3) == LastBytes(b, n + 2) + [ByteOf(a)];
    assert LastBytes(b, n + 2) == LastBytes(c, n + 1) + [ByteOf(b)];
    assert LastBytes(c, n + 1) == LastBytes(x / 0x1_0000_0000, n) + [ByteOf(c)];
  }

  lemma Shifted(x: nat)
    ensures x / 0x100 / 256 == x / 0x1_0000 && x / 0x1_0000 / 256 == x / 0x100_0000
    ensures x / 0x100_0000 / 256 == x / 0x1_0000_0000
  {
  }

  /** The length field is the length in bits, for every message that the standard admits. */
  lemma LengthFieldIsNumeral(n: nat)
    requires n < 0x2000_0000_0000_0000
    ensures Numeral(LengthField(n)) == 8 * n
  {
    var x := 8 * n;
    EighthPower();
    LastBytesAreNumeral(x, 8);
    var y := x / 0x1_0000_0000;
    FourLastBytes(x, 4);
    FourLastBytes(y, 0);
    FieldDivisions(x, y);
    assert LengthField(n) == LastBytes(x, 8);
  }

  lemma FieldDivisions(x: nat, y: nat)
    requires y == x / 0x1_0000_0000
    ensures x / 0x100_0000_0000 == y / 0x100 && x / 0x1_0000_0000_0000 == y / 0x1_0000
    ensures x / 0x100_0000_0000_0000 == y / 0x100_0000
  {
  }

  lemma EighthPower()
    ensures Pow(256, 8) == 0x1_0000_0000_0000_0000
  {
    var b := 256;
    assert Pow(b, 1) == b * Pow(b, 0) && Pow(b, 2) == b * Pow(b, 1);
    PowAdd(b, 2, 2);
    PowAdd(b, 4, 4);
  }
}
