/** SHA-256 as FIPS 180-4 defines it, on whole messages of bytes. */
module Sha256Standard {
  datatype Byte = Byte(bits: bv8)

  datatype Word = Word(bits: bv32)

  // ----- Section 4.1.2: functions on words, and the same on bare bits -----

  function Rotr(x: bv32, n: bv32): bv32
    requires 0 < n < 32
  {
    (x >> n) | (x << (32 - n))
  }

  function AddBits(x: bv32, y: bv32): bv32 { x + y }

  function Add(x: Word, y: Word): Word { Word(AddBits(x.bits, y.bits)) }

  function ChBits(x: bv32, y: bv32, z: bv32): bv32 { (x & y) ^ (!x & z) }

  function Ch(x: Word, y: Word, z: Word): Word { Word(ChBits(x.bits, y.bits, z.bits)) }

  function MajBits(x: bv32, y: bv32, z: bv32): bv32 { (x & y) ^ (x & z) ^ (y & z) }

  function Maj(x: Word, y: Word, z: Word): Word { Word(MajBits(x.bits, y.bits, z.bits)) }

  function BigSigma0Bits(x: bv32): bv32 { Rotr(x, 2) ^ Rotr(x, 13) ^ Rotr(x, 22) }

  function BigSigma0(x: Word): Word { Word(BigSigma0Bits(x.bits)) }

  function BigSigma1Bits(x: bv32): bv32 { Rotr(x, 6) ^ Rotr(x, 11) ^ Rotr(x, 25) }

  function BigSigma1(x: Word): Word { Word(BigSigma1Bits(x.bits)) }

  function SmallSigma0Bits(x: bv32): bv32 { Rotr(x, 7) ^ Rotr(x, 18) ^ (x >> 3) }

  function SmallSigma0(x: Word): Word { Word(SmallSigma0Bits(x.bits)) }

  function SmallSigma1Bits(x: bv32): bv32 { Rotr(x, 17) ^ Rotr(x, 19) ^ (x >> 10) }

  function SmallSigma1(x: Word): Word { Word(SmallSigma1Bits(x.bits)) }

  // ----- Section 4.2.2 and 5.3.3: constants -----

  const K: seq<Word> :=
    [Word(0x428a2f98), Word(0x71374491), Word(0xb5c0fbcf), Word(0xe9b5dba5),
     Word(0x3956c25b), Word(0x59f111f1), Word(0x923f82a4), Word(0xab1c5ed5)] +
    [Word(0xd807aa98), Word(0x12835b01), Word(0x243185be), Word(0x550c7dc3),
     Word(0x72be5d74), Word(0x80deb1fe), Word(0x9bdc06a7), Word(0xc19bf174)] +
    [Word(0xe49b69c1), Word(0xefbe4786), Word(0x0fc19dc6), Word(0x240ca1cc),
     Word(0x2de92c6f), Word(0x4a7484aa), Word(0x5cb0a9dc), Word(0x76f988da)] +
    [Word(0x983e5152), Word(0xa831c66d), Word(0xb00327c8), Word(0xbf597fc7),
     Word(0xc6e00bf3), Word(0xd5a79147), Word(0x06ca6351), Word(0x14292967)] +
    [Word(0x27b70a85), Word(0x2e1b2138), Word(0x4d2c6dfc), Word(0x53380d13),
     Word(0x650a7354), Word(0x766a0abb), Word(0x81c2c92e), Word(0x92722c85)] +
    [Word(0xa2bfe8a1), Word(0xa81a664b), Word(0xc24b8b70), Word(0xc76c51a3),
     Word(0xd192e819), Word(0xd6990624), Word(0xf40e3585), Word(0x106aa070)] +
    [Word(0x19a4c116), Word(0x1e376c08), Word(0x2748774c), Word(0x34b0bcb5),
     Word(0x391c0cb3), Word(0x4ed8aa4a), Word(0x5b9cca4f), Word(0x682e6ff3)] +
    [Word(0x748f82ee), Word(0x78a5636f), Word(0x84c87814), Word(0x8cc70208),
     Word(0x90befffa), Word(0xa4506ceb), Word(0xbef9a3f7), Word(0xc67178f2)]

  /** Eight words: a hash value, or the working variables a to h. */
  datatype Eight = Eight(a: Word, b: Word, c: Word, d: Word, e: Word, f: Word, g: Word, h: Word)

  const H0: Eight := Eight(
    Word(0x6a09e667), Word(0xbb67ae85), Word(0x3c6ef372), Word(0xa54ff53a),
    Word(0x510e527f), Word(0x9b05688c), Word(0x1f83d9ab), Word(0x5be0cd19))

  // ----- Section 5.1.1: padding -----

  /** The least number of zero bytes after the byte 80 that brings n + 1 bytes to 56 modulo 64. */
  function ZeroBytes(n: nat): nat {
    (55 - n) % 64
  }

  /** The length in bits as eight bytes, most significant first. */
  function LengthField(n: nat): (s: seq<Byte>)
    ensures |s| == 8
  {
    var bits := 8 * n;
    [ByteOf(bits / 0x100_0000_0000_0000), ByteOf(bits / 0x1_0000_0000_0000), ByteOf(bits / 0x100_0000_0000),
     ByteOf(bits / 0x1_0000_0000), ByteOf(bits / 0x100_0000), ByteOf(bits / 0x1_0000), ByteOf(bits / 0x100),
     ByteOf(bits)]
  }

  function ByteOf(x: nat): Byte {
    Byte((x % 256) as bv8)
  }

  function Zeros(n: nat): (s: seq<Byte>)
    ensures |s| == n && forall k | 0 <= k < n :: s[k] == Byte(0)
  {
    seq(n, _ => Byte(0))
  }

  function Pad(message: seq<Byte>): seq<Byte> {
    PadWith(message, LengthField(|message|))
  }

  function PadWith(message: seq<Byte>, field: seq<Byte>): seq<Byte> {
    message + [Byte(0x80)] + Zeros(ZeroBytes(|message|)) + field
  }

  /** The bits of the last block in use after l message bits, a one and k zeros. */
  function LastBits(l: nat, k: nat): nat {
    (l + 1 + k) % 512
  }

  /** In bits: one 1 bit and the least k zero bits such that l + 1 + k is 448 modulo 512. */
  lemma PaddingIsLeast(n: nat)
    ensures LastBits(8 * n, 7 + 8 * ZeroBytes(n)) == 448
    ensures forall k: nat | k < 7 + 8 * ZeroBytes(n) :: LastBits(8 * n, k) != 448
  {
    var z := ZeroBytes(n);
    var q := (n + z - 55) / 64;
    assert n + z == 55 + 64 * q;
    forall k: nat | k < 7 + 8 * z ensures LastBits(8 * n, k) != 448 {
      ShortOf448(8 * n + 1 + k, q, 7 + 8 * z - k);
    }
  }

  lemma ShortOf448(x: int, q: int, d: int)
    requires x == 448 + 512 * q - d && 0 < d < 512
    ensures x % 512 != 448
  {
  }

  lemma PaddedLength(message: seq<Byte>, field: seq<Byte>)
    requires |field| == 8
    ensures |PadWith(message, field)| == 64 * (|message| / 64 + if |message| % 64 < 56 then 1 else 2)
  {
    LastBlocks(|message|);
  }

  lemma LastBlocks(n: nat)
    ensures n + 9 + ZeroBytes(n) == 64 * (n / 64 + if n % 64 < 56 then 1 else 2)
  {
  }

  // ----- Section 6.2.2: the computation -----

  function Joined(a: Byte, b: Byte, c: Byte, d: Byte): Word {
    Word(((a.bits as bv32) << 24) | ((b.bits as bv32) << 16) | ((c.bits as bv32) << 8) | (d.bits as bv32))
  }

  /** Word j of a block, big-endian. */
  function WordAt(block: seq<Byte>, j: nat): Word
    requires 4 * j + 4 <= |block|
  {
    Joined(block[4 * j], block[4 * j + 1], block[4 * j + 2], block[4 * j + 3])
  }

  /** The first t words of the message schedule of a block. */
  function Schedule(block: seq<Byte>, t: nat): (w: seq<Word>)
    requires |block| == 64
    ensures |w| == t
  {
    if t == 0 then [] else
    var w := Schedule(block, t - 1);
    w + [if t <= 16 then WordAt(block, t - 1)
         else Add(Add(Add(SmallSigma1(w[t - 3]), w[t - 8]), SmallSigma0(w[t - 16])), w[t - 17])]
  }

  function T1(v: Eight, k: Word, w: Word): Word {
    Add(Add(Add(Add(v.h, BigSigma1(v.e)), Ch(v.e, v.f, v.g)), k), w)
  }

  function T2(v: Eight): Word {
    Add(BigSigma0(v.a), Maj(v.a, v.b, v.c))
  }

  /** The working variables, moved on by one. */
  function Turn(v: Eight, t1: Word, t2: Word): Eight {
    Eight(Add(t1, t2), v.a, v.b, v.c, Add(v.d, t1), v.e, v.f, v.g)
  }

  function Sum(u: Eight, v: Eight): Eight {
    Eight(Add(u.a, v.a), Add(u.b, v.b), Add(u.c, v.c), Add(u.d, v.d),
          Add(u.e, v.e), Add(u.f, v.f), Add(u.g, v.g), Add(u.h, v.h))
  }

  /** The working variables after t rounds with the words w and the constants k, starting from v. */
  function Rounds(v: Eight, w: seq<Word>, k: seq<Word>, t: nat): Eight
    requires t <= |w| && t <= |k|
  {
    if t == 0 then v else
    var u := Rounds(v, w, k, t - 1);
    Turn(u, T1(u, k[t - 1], w[t - 1]), T2(u))
  }

  /** The next hash value. */
  function Compress(h: Eight, block: seq<Byte>): Eight
    requires |block| == 64
  {
    Sum(h, Rounds(h, Schedule(block, 64), K, 64))
  }

  /** A word as four bytes, most significant first. */
  function BytesOf(x: Word): (s: seq<Byte>)
    ensures |s| == 4
  {
    [Byte(((x.bits >> 24) & 0xFF) as bv8), Byte(((x.bits >> 16) & 0xFF) as bv8), Byte(((x.bits >> 8) & 0xFF) as bv8),
     Byte((x.bits & 0xFF) as bv8)]
  }

  function Digest(h: seq<Word>): (s: seq<Byte>)
    ensures |s| == 4 * |h|
  {
    if h == [] then [] else Digest(h[..|h| - 1]) + BytesOf(h[|h| - 1])
  }

  function WordsOf(v: Eight): seq<Word> {
    [v.a, v.b, v.c, v.d, v.e, v.f, v.g, v.h]
  }

  const COMPRESSION: (Eight, seq<Byte>) -> Eight := (h, block) => if |block| == 64 then Compress(h, block) else h

  /** The hash of a whole message. */
  function Sha256(message: seq<Byte>): seq<Byte> {
    HashWith(COMPRESSION, message)
  }

  // ----- The same with any compression function: what depends on the blocks alone -----

  function HashWith(f: (Eight, seq<Byte>) -> Eight, message: seq<Byte>): seq<Byte> {
    HashPadded(f, Pad(message))
  }

  function HashPadded(f: (Eight, seq<Byte>) -> Eight, padded: seq<Byte>): seq<Byte> {
    Digest(WordsOf(Blocks(f, H0, padded, |padded| / 64)))
  }

  /** The hash value after the first n blocks of m, from the hash value h. */
  function Blocks(f: (Eight, seq<Byte>) -> Eight, h: Eight, m: seq<Byte>, n: nat): Eight
    requires 64 * n <= |m|
  {
    if n == 0 then h else f(Blocks(f, h, m, n - 1), m[64 * (n - 1)..64 * n])
  }

  /** Later bytes do not change the hash value of the blocks before them. */
  lemma {:induction false} BlocksOfPrefix(f: (Eight, seq<Byte>) -> Eight, h: Eight, m: seq<Byte>, rest: seq<Byte>,
                                          n: nat)
    requires 64 * n <= |m|
    ensures Blocks(f, h, m + rest, n) == Blocks(f, h, m, n)
    decreases n
  {
    if n > 0 {
      BlocksOfPrefix(f, h, m, rest, n - 1);
      assert (m + rest)[64 * (n - 1)..64 * n] == m[64 * (n - 1)..64 * n];
    }
  }

  /** Hashing the blocks of m and going on with those of rest is hashing m + rest. */
  lemma {:induction false} BlocksJoin(f: (Eight, seq<Byte>) -> Eight, h: Eight, m: seq<Byte>, rest: seq<Byte>,
                                         k: nat, n: nat)
    requires 64 * k == |m| && 64 * n <= |rest|
    ensures Blocks(f, Blocks(f, h, m, k), rest, n) == Blocks(f, h, m + rest, k + n)
    decreases n
  {
    if n == 0 {
      BlocksOfPrefix(f, h, m, rest, k);
    } else {
      BlocksJoin(f, h, m, rest, k, n - 1);
      assert (m + rest)[64 * (k + n - 1)..64 * (k + n)] == rest[64 * (n - 1)..64 * n];
    }
  }

  /** Hashing the first q blocks of m and going on with n blocks of data is hashing any x that starts with the same
      blocks. */
  lemma BlocksContinue(f: (Eight, seq<Byte>) -> Eight, h: Eight, m: seq<Byte>, q: nat, data: seq<Byte>, n: nat,
                       x: seq<Byte>)
    requires 64 * q <= |m| && 64 * n <= |data| && 64 * (q + n) <= |x|
    requires x[..64 * q] == m[..64 * q] && x[64 * q..64 * (q + n)] == data[..64 * n]
    ensures Blocks(f, Blocks(f, h, m, q), data, n) == Blocks(f, h, x, q + n)
  {
    var p, d := m[..64 * q], data[..64 * n];
    assert m == p + m[64 * q..];
    BlocksOfPrefix(f, h, p, m[64 * q..], q);
    assert data == d + data[64 * n..];
    BlocksOfPrefix(f, Blocks(f, h, p, q), d, data[64 * n..], n);
    BlocksJoin(f, h, p, d, q, n);
    assert x == (p + d) + x[64 * (q + n)..];
    BlocksOfPrefix(f, h, p + d, x[64 * (q + n)..], q + n);
  }
}

/** The streaming hash object of cpp/lib/sha256.h. */
module Sha256Stream {
  import opened Masks
  import opened Sha256Standard

  const BLOCK_SIZE := 64
  const DIGEST_SIZE := 32

  /** The source keeps lengths in 32-bit words, the length in bits too. */
  const WORD_LIMIT := 0x1_0000_0000

  /** An int; arithmetic beyond it is undefined. */
  newtype Int32 = x: int | -0x8000_0000 <= x < 0x8000_0000

  /** The most blocks that one call of transform can address. */
  const MAX_BLOCKS := 0x200_0000

  /** From here on, pending bytes and new data together fill more blocks than that. */
  const CALL_LIMIT := 64 * (MAX_BLOCKS + 2)

  function Wrapped(x: nat): nat {
    x % WORD_LIMIT
  }

  /** The length in bits, from lengths in bytes, in 32-bit arithmetic. */
  function LengthWord(total: nat, len: nat): nat {
    Wrapped(Wrapped(total + len) * 8)
  }

  /** What the source puts in the place of the length field: the low half of the length in bits. */
  function CutField(n: nat): (s: seq<Byte>)
    ensures |s| == 8
  {
    Zeros(4) + BigEndian(8 * n)
  }

  /** The digest that the source computes. */
  function CutHash(f: (Eight, seq<Byte>) -> Eight, message: seq<Byte>): seq<Byte> {
    HashPadded(f, PadWith(message, CutField(|message|)))
  }

  /** The eight words of an array. */
  ghost function Value(a: array<Word>): Eight
    requires a.Length == 8
    reads a
  {
    Eight(a[0], a[1], a[2], a[3], a[4], a[5], a[6], a[7])
  }

  /** f is the compression function.  The trigger keeps proofs about buffering apart from the arithmetic of rounds. */
  ghost predicate IsCompression(f: (Eight, seq<Byte>) -> Eight) {
    forall h, block {:trigger Compress(h, block)} :: |block| == 64 ==> f(h, block) == Compress(h, block)
  }

  class SHA256 {
    var m_tot_len: nat
    var m_len: nat
    const m_block: array<Byte>
    const m_h: array<Word>
    ghost var message: seq<Byte>  // everything given to Update since Init
    ghost var blocks: nat  // the number of blocks compressed

    ghost const f: (Eight, seq<Byte>) -> Eight  // the compression function, by name

    ghost predicate Ready() {
      m_block.Length == 2 * BLOCK_SIZE && m_h.Length == 8 && IsCompression(f)
    }

    ghost predicate Valid()
      reads this, m_block, m_h
    {
      && Ready()
      && m_len < 64 && m_tot_len == Wrapped(64 * blocks) && |message| == 64 * blocks + m_len
      && m_block[..m_len] == message[64 * blocks..]
      && Value(m_h) == Blocks(f, H0, message, blocks)
    }

    constructor ()
      ensures Valid() && f == COMPRESSION && message == [] && fresh(m_block) && fresh(m_h)
    {
      f := COMPRESSION;
      m_block := new Byte[2 * BLOCK_SIZE](_ => Byte(0));
      m_h := new Word[8](_ => Word(0));
      new;
      Init();
    }

    method Init()
      requires Ready()
      modifies this, m_h
      ensures Valid() && message == []
    {
      m_h[0] := Word(0x6a09e667);
      m_h[1] := Word(0xbb67ae85);
      m_h[2] := Word(0x3c6ef372);
      m_h[3] := Word(0xa54ff53a);
      m_h[4] := Word(0x510e527f);
      m_h[5] := Word(0x9b05688c);
      m_h[6] := Word(0x1f83d9ab);
      m_h[7] := Word(0x5be0cd19);
      m_len := 0;
      m_tot_len := 0;
      message := [];
      blocks := 0;
    }

    /** The message schedule of one block. */
    method Expand(block: seq<Byte>) returns (w: array<Word>)
      requires |block| == 64
      ensures fresh(w) && w[..] == Schedule(block, 64)
    {
      w := new Word[64](_ => Word(0));
      var j := 0;
      while j < 16
        invariant 0 <= j <= 16 && w[..j] == Schedule(block, j)
      {
        w[j] := WordAt(block, j);
        j := j + 1;
      }
      while j < 64
        invariant 16 <= j <= 64 && w[..j] == Schedule(block, j)
      {
        w[j] := Add(Add(Add(SmallSigma1(w[j - 2]), w[j - 7]), SmallSigma0(w[j - 15])), w[j - 16]);
        j := j + 1;
      }
    }

    method CopyHash() returns (wv: array<Word>)
      requires m_h.Length == 8
      ensures fresh(wv) && wv.Length == 8 && Value(wv) == Value(m_h)
    {
      wv := new Word[8](_ => Word(0));
      var j := 0;
      while j < 8
        invariant 0 <= j <= 8 && forall i | 0 <= i < j :: wv[i] == m_h[i]
      {
        wv[j] := m_h[j];
        j := j + 1;
      }
    }

    /** The 64 rounds with the constants k. */
    method Mix(w: array<Word>, k: seq<Word>, wv: array<Word>)
      requires w.Length == 64 == |k| && wv.Length == 8 && wv != w
      modifies wv
      ensures Value(wv) == Rounds(old(Value(wv)), w[..], k, 64)
    {
      var j := 0;
      while j < 64
        invariant 0 <= j <= 64 && Value(wv) == Rounds(old(Value(wv)), w[..], k, j)
      {
        MixOnce(wv, k[j], w[j]);
        j := j + 1;
      }
    }

    /** One round, shifting the working variables in place. */
    method MixOnce(wv: array<Word>, k: Word, w: Word)
      requires wv.Length == 8
      modifies wv
      ensures Value(wv) == Turn(old(Value(wv)), T1(old(Value(wv)), k, w), T2(old(Value(wv))))
    {
      var t1 := Add(Add(Add(Add(wv[7], BigSigma1(wv[4])), Ch(wv[4], wv[5], wv[6])), k), w);
      var t2 := Add(BigSigma0(wv[0]), Maj(wv[0], wv[1], wv[2]));
      Shift(wv, t1, t2);
    }

    method Shift(wv: array<Word>, t1: Word, t2: Word)
      requires wv.Length == 8
      modifies wv
      ensures Value(wv) == Turn(old(Value(wv)), t1, t2)
    {
      wv[7] := wv[6];
      wv[6] := wv[5];
      wv[5] := wv[4];
      wv[4] := Add(wv[3], t1);
      wv[3] := wv[2];
      wv[2] := wv[1];
      wv[1] := wv[0];
      wv[0] := Add(t1, t2);
    }

    /** Absorbs the first blockNb blocks of data.  The offset of a block is an int, which bounds their number. */
    method Transform(data: seq<Byte>, blockNb: nat)
      requires Ready() && 64 * blockNb <= |data| && blockNb <= MAX_BLOCKS
      modifies m_h
      ensures Value(m_h) == Blocks(f, old(Value(m_h)), data, blockNb)
    {
      var i := 0;
      while i < blockNb
        invariant 0 <= i <= blockNb && Value(m_h) == Blocks(f, old(Value(m_h)), data, i)
      {
        var offset: Int32 := (i as Int32) * 64;
        TransformBlock(data[offset..offset as nat + 64]);
        i := i + 1;
      }
    }

    method TransformBlock(block: seq<Byte>)
      requires Ready() && |block| == 64
      modifies m_h
      ensures Value(m_h) == f(old(Value(m_h)), block)
    {
      var w := Expand(block);
      var wv := CopyHash();
      Mix(w, K, wv);
      AddInto(wv);
      assert Value(m_h) == Compress(old(Value(m_h)), block);
    }

    method AddInto(wv: array<Word>)
      requires m_h.Length == wv.Length == 8 && wv != m_h
      modifies m_h
      ensures Value(m_h) == Sum(old(Value(m_h)), Value(wv))
    {
      var j := 0;
      while j < 8
        invariant 0 <= j <= 8
        invariant forall k | 0 <= k < 8 :: m_h[k] == if k < j then Add(old(m_h[k]), wv[k]) else old(m_h[k])
      {
        m_h[j] := Add(m_h[j], wv[j]);
        j := j + 1;
      }
    }

    /** Adds data to the message, compressing every block that fills up.  Data so long that the sum of lengths wraps
        around is taken for short: the hash value stays as it was, and the data are lost. */
    method Update(data: seq<Byte>)
      requires Valid() && |data| < WORD_LIMIT
      requires m_len + |data| < CALL_LIMIT || m_len + |data| >= WORD_LIMIT
      modifies this, m_block, m_h
      ensures old(m_len) + |data| < WORD_LIMIT ==> Valid() && message == old(message) + data
      ensures old(m_len) + |data| >= WORD_LIMIT ==>
                m_len == old(m_len) + |data| - WORD_LIMIT && m_tot_len == old(m_tot_len) && m_h[..] == old(m_h[..])
    {
      var tmpLen := BLOCK_SIZE - m_len;
      var remLen := if |data| < tmpLen then |data| else tmpLen;
      CopyIn(m_len, data[..remLen]);
      if Wrapped(m_len + |data|) < BLOCK_SIZE {
        m_len := Wrapped(m_len + |data|);
        if m_len == old(m_len) + |data| {
          BlocksOfPrefix(f, H0, message, data, blocks);
          message := message + data;
          assert m_block[..m_len] == message[64 * blocks..];
        }
        return;
      }
      CompressAll(data, remLen);
    }

    /** The part of update for data that complete the pending block: remLen bytes of them are in the buffer already. */
    method CompressAll(data: seq<Byte>, remLen: nat)
      requires Ready() && m_len + |data| < CALL_LIMIT
      requires m_len + remLen == 64 && remLen <= |data|
      requires m_tot_len == Wrapped(64 * blocks) && |message| == 64 * blocks + m_len
      requires m_block[..64] == message[64 * blocks..] + data[..remLen]
      requires Value(m_h) == Blocks(f, H0, message, blocks)
      modifies this, m_block, m_h
      ensures Valid() && message == old(message) + data
    {
      var newLen := |data| - remLen;
      var blockNb := newLen / BLOCK_SIZE;
      var shifted := data[remLen..];
      LongUpdate(f, H0, message, data, m_block[..], blocks, remLen, blockNb);
      Transform(m_block[..], 1);
      Transform(shifted, blockNb);
      var left := newLen % BLOCK_SIZE;
      CopyIn(0, shifted[blockNb * 64..blockNb * 64 + left]);
      m_len := left;
      TotalAfter(blocks, blockNb);
      m_tot_len := Wrapped(m_tot_len + (blockNb + 1) * 64);
      blocks := blocks + 1 + blockNb;
      message := message + data;
    }

    /** Pads the message, compresses the last one or two blocks and writes the digest: the standard's, exactly when the
        length field is the standard's. */
    method Final(digest: array<Byte>)
      requires Valid() && digest.Length >= DIGEST_SIZE && digest != m_block
      modifies m_block, m_h, digest
      ensures digest[..DIGEST_SIZE] == CutHash(f, message) && digest[DIGEST_SIZE..] == old(digest[DIGEST_SIZE..])
      ensures FieldFits(|message|) ==> digest[..DIGEST_SIZE] == HashWith(f, message)
    {
      var blockNb := PadBuffer();
      HashIs(f, message, blocks, m_len, m_block[..], blockNb);
      Transform(m_block[..], blockNb);
      WriteDigest(digest);
      CutFieldIsWhole(|message|);
    }

    /** The byte 80, zeros, and the length in bits as a 32-bit word in the last four bytes. */
    method PadBuffer() returns (blockNb: nat)
      requires m_block.Length == 2 * BLOCK_SIZE && m_len < 64 && m_tot_len == Wrapped(64 * blocks)
      modifies m_block
      ensures blockNb == if m_len > 55 then 2 else 1
      ensures m_block[..64 * blockNb] == old(m_block[..m_len]) + [Byte(0x80)] + Zeros(64 * blockNb - m_len - 5) +
                                         BigEndian(8 * (64 * blocks + m_len))
    {
      blockNb := if BLOCK_SIZE - 9 < m_len % BLOCK_SIZE then 2 else 1;
      LengthWraps(64 * blocks, m_len);
      FillBuffer(blockNb * 64, LengthWord(m_tot_len, m_len));
    }

    method FillBuffer(pmLen: nat, lenB: nat)
      requires m_block.Length == 2 * BLOCK_SIZE && m_len + 9 <= pmLen <= m_block.Length
      modifies m_block
      ensures m_block[..pmLen] ==
              old(m_block[..m_len]) + [Byte(0x80)] + Zeros(pmLen - m_len - 5) + BigEndian(lenB)
    {
      CopyIn(m_len, Zeros(pmLen - m_len));
      ghost var zeroed := m_block[..];
      m_block[m_len] := Byte(0x80);
      assert m_block[..] == zeroed[m_len := Byte(0x80)];
      Unpack32(lenB, pmLen - 4);
      BufferIs(old(m_block[..]), zeroed, m_block[..], m_len, pmLen, BigEndian(lenB));
    }

    /** Stores a 32-bit word in four bytes of the block buffer, most significant first. */
    method Unpack32(x: nat, at: nat)
      requires at + 4 <= m_block.Length
      modifies m_block
      ensures m_block[..] == old(m_block[..at]) + BigEndian(x) + old(m_block[at + 4..])
    {
      m_block[at + 3] := ByteOf(x);
      m_block[at + 2] := ByteOf(x / 0x100);
      m_block[at + 1] := ByteOf(x / 0x1_0000);
      m_block[at] := ByteOf(x / 0x100_0000);
    }

    method WriteDigest(digest: array<Byte>)
      requires m_h.Length == 8 && digest.Length >= DIGEST_SIZE
      modifies digest
      ensures digest[..DIGEST_SIZE] == Digest(WordsOf(Value(m_h)))
      ensures digest[DIGEST_SIZE..] == old(digest[DIGEST_SIZE..])
    {
      var i := 0;
      while i < 8
        invariant 0 <= i <= 8 && digest[..4 * i] == Digest(m_h[..i])
        invariant digest[DIGEST_SIZE..] == old(digest[DIGEST_SIZE..])
      {
        var bytes := BytesOf(m_h[i]);
        digest[4 * i + 3] := bytes[3];
        digest[4 * i + 2] := bytes[2];
        digest[4 * i + 1] := bytes[1];
        digest[4 * i] := bytes[0];
        assert m_h[..i + 1][..i] == m_h[..i];
        i := i + 1;
      }
      assert m_h[..8] == WordsOf(Value(m_h));
    }

    /** memcpy into the block buffer. */
    method CopyIn(at: nat, data: seq<Byte>)
      requires at + |data| <= m_block.Length
      modifies m_block
      ensures m_block[..] == old(m_block[..at]) + data + old(m_block[at + |data|..])
    {
      forall j | 0 <= j < |data| {
        m_block[at + j] := data[j];
      }
    }
  }

  /** Data that complete the pending block, with the buffer as it is after the first copy. */
  lemma LongUpdate(f: (Eight, seq<Byte>) -> Eight, h: Eight, message: seq<Byte>, data: seq<Byte>, buffer: seq<Byte>,
                   q: nat, taken: nat, n: nat)
    requires |message| + taken == 64 * q + 64 && taken <= 64 && taken + 64 * n <= |data| && |buffer| >= 64
    requires buffer[..64] == message[64 * q..] + data[..taken]
    ensures (message + data)[64 * (q + 1 + n)..] == data[taken..][64 * n..]
    ensures Blocks(f, Blocks(f, Blocks(f, h, message, q), buffer, 1), data[taken..], n) ==
            Blocks(f, h, message + data, q + 1 + n)
  {
    var whole, rest := message + data, data[taken..];
    LongSlices(message, data, buffer, q, taken);
    BlocksContinue(f, h, message, q, buffer, 1, whole);
    assert whole[64 * (q + 1)..64 * (q + 1 + n)] == rest[..64 * n];
    BlocksContinue(f, h, whole, q + 1, rest, n, whole);
  }

  lemma LongSlices(message: seq<Byte>, data: seq<Byte>, buffer: seq<Byte>, q: nat, taken: nat)
    requires |message| + taken == 64 * q + 64 && taken <= 64 && taken <= |data| && |buffer| >= 64
    requires buffer[..64] == message[64 * q..] + data[..taken]
    ensures var whole := message + data;
            && whole[64 * q..64 * q + 64] == buffer[..64] && whole[..64 * q] == message[..64 * q]
            && whole[64 * q + 64..] == data[taken..]
  {
  }

  /** The buffer as final prepares it holds the end of the padded message. */
  lemma LastBlocksAre(message: seq<Byte>, q: nat, len: nat, buffer: seq<Byte>, n: nat)
    requires |message| == 64 * q + len && len < 64
    requires n == (if len > 55 then 2 else 1) && |buffer| >= 64 * n
    requires buffer[..64 * n] == message[64 * q..] + [Byte(0x80)] + Zeros(64 * n - len - 5) + BigEndian(8 * |message|)
    ensures var padded := PadWith(message, CutField(|message|));
            && |padded| == 64 * (q + n)
            && padded[..64 * q] == message[..64 * q]
            && padded[64 * q..64 * (q + n)] == buffer[..64 * n]
  {
    ZeroBytesAre(q, len, n);
    assert Zeros(64 * n - len - 5) == Zeros(ZeroBytes(|message|)) + Zeros(4);
  }

  /** Going on with the buffer as final prepares it gives the hash of the whole message. */
  lemma HashIs(f: (Eight, seq<Byte>) -> Eight, message: seq<Byte>, q: nat, len: nat, buffer: seq<Byte>, n: nat)
    requires |message| == 64 * q + len && len < 64
    requires n == (if len > 55 then 2 else 1) && |buffer| >= 64 * n
    requires buffer[..64 * n] == message[64 * q..] + [Byte(0x80)] + Zeros(64 * n - len - 5) + BigEndian(8 * |message|)
    ensures Digest(WordsOf(Blocks(f, Blocks(f, H0, message, q), buffer, n))) == CutHash(f, message)
  {
    var padded := PadWith(message, CutField(|message|));
    LastBlocksAre(message, q, len, buffer, n);
    BlocksContinue(f, H0, message, q, buffer, n, padded);
    HashOfBlocks(f, padded, q + n);
  }

  lemma HashOfBlocks(f: (Eight, seq<Byte>) -> Eight, padded: seq<Byte>, n: nat)
    requires |padded| == 64 * n
    ensures HashPadded(f, padded) == Digest(WordsOf(Blocks(f, H0, padded, n)))
  {
    assert |padded| / 64 == n;
  }

  lemma BufferIs(was: seq<Byte>, zeroed: seq<Byte>, now: seq<Byte>, len: nat, end: nat, length: seq<Byte>)
    requires len + 5 <= end <= |was| && |length| == 4
    requires zeroed == was[..len] + Zeros(end - len) + was[end..]
    requires now == zeroed[len := Byte(0x80)][..end - 4] + length + zeroed[len := Byte(0x80)][end..]
    ensures now[..end] == was[..len] + [Byte(0x80)] + Zeros(end - len - 5) + length
  {
  }

  lemma ZeroBytesAre(q: nat, len: nat, n: nat)
    requires len < 64 && n == if len > 55 then 2 else 1
    ensures ZeroBytes(64 * q + len) == 64 * n - len - 9
  {
  }

  /** The low four bytes of a number. */
  function BigEndian(x: nat): (s: seq<Byte>)
    ensures |s| == 4
  {
    [ByteOf(x / 0x100_0000), ByteOf(x / 0x1_0000), ByteOf(x / 0x100), ByteOf(x)]
  }

  lemma WrapSum(x: nat, y: nat)
    ensures Wrapped(Wrapped(x) + y) == Wrapped(x + y)
  {
  }

  lemma TotalAfter(q: nat, n: nat)
    ensures Wrapped(Wrapped(64 * q) + (n + 1) * 64) == Wrapped(64 * (q + 1 + n))
  {
    WrapSum(64 * q, (n + 1) * 64);
  }

  /** The low four bytes survive the wrap-around. */
  lemma LengthWraps(x: nat, len: nat)
    ensures BigEndian(LengthWord(Wrapped(x), len)) == BigEndian(8 * (x + len))
  {
    WrapSum(x, len);
    WrapTimesEight(x + len);
    LowBytes(8 * (x + len));
  }

  lemma WrapTimesEight(x: nat)
    ensures Wrapped(Wrapped(x) * 8) == Wrapped(8 * x)
  {
  }

  lemma ShiftedByte(q: nat, r: nat, d: nat, e: nat)
    requires d > 0
    ensures ByteOf((d * (256 * e * q) + r) / d) == ByteOf(r / d)
  {
    var y := 256 * e * q;
    ModuloUnique(d * y + r, d, y + r / d, r % d);
    assert y == 256 * (e * q);
    ModuloUnique(y + r / d, 256, e * q + r / d / 256, r / d % 256);
  }

  lemma LowBytes(x: nat)
    ensures BigEndian(Wrapped(x)) == BigEndian(x)
  {
    var q, r := x / WORD_LIMIT, Wrapped(x);
    ShiftedByte(q, r, 0x100_0000, 1);
    ShiftedByte(q, r, 0x1_0000, 0x100);
    ShiftedByte(q, r, 0x100, 0x1_0000);
    ShiftedByte(q, r, 1, 0x100_0000);
  }

  /** The upper half of the 64-bit length field is zero: for the messages of the standard, those under 2^29 bytes. */
  ghost predicate FieldFits(n: nat) {
    8 * n / WORD_LIMIT % WORD_LIMIT == 0
  }

  lemma FitsBelowLimit(n: nat)
    requires n < 0x2000_0000_0000_0000
    ensures FieldFits(n) <==> n < 0x2000_0000
  {
  }

  lemma ByteIsZero(x: nat)
    ensures ByteOf(x) == Byte(0) <==> x % 256 == 0
  {
    var low := x % 256;
    assert (low as bv8) as int == low;
  }

  /** The source's length field is the standard's exactly when the upper half of that is zero. */
  lemma CutFieldIsWhole(n: nat)
    ensures CutField(n) == LengthField(n) <==> FieldFits(n)
  {
    var x := 8 * n / WORD_LIMIT;
    var bits := 8 * n;
    assert bits / 0x1_0000_0000 == x;
    assert bits / 0x100_0000_0000 == x / 0x100;
    assert bits / 0x1_0000_0000_0000 == x / 0x1_0000;
    assert bits / 0x100_0000_0000_0000 == x / 0x100_0000;
    ByteIsZero(x);
    ByteIsZero(x / 0x100);
    ByteIsZero(x / 0x1_0000);
    ByteIsZero(x / 0x100_0000);
    LowHalfIsZero(x);
    var l, c := LengthField(n), CutField(n);
    assert l[4..] == c[4..] == BigEndian(bits);
    assert l == l[..4] + l[4..] && c == c[..4] + c[4..] && c[..4] == Zeros(4);
    if FieldFits(n) {
      assert l[..4] == Zeros(4);
    } else {
      assert !(l[0] == l[1] == l[2] == l[3] == Byte(0));
      assert c[0] == c[1] == c[2] == c[3] == Byte(0);
    }
  }

  lemma TwoBytesAreZero(x: nat)
    ensures x % 0x1_0000 == 0 <==> x % 256 == 0 && x / 256 % 256 == 0
  {
  }

  lemma TwoPairsAreZero(x: nat)
    ensures x % WORD_LIMIT == 0 <==> x % 0x1_0000 == 0 && x / 0x1_0000 % 0x1_0000 == 0
  {
  }

  lemma LowHalfIsZero(x: nat)
    ensures x % WORD_LIMIT == 0 <==>
              x % 256 == 0 && x / 0x100 % 256 == 0 && x / 0x1_0000 % 256 == 0 && x / 0x100_0000 % 256 == 0
  {
    var y := x / 0x1_0000;
    TwoPairsAreZero(x);
    TwoBytesAreZero(x);
    TwoBytesAreZero(y);
    assert x / 0x100_0000 == y / 256;
  }

  function Concat(chunks: seq<seq<Byte>>): seq<Byte> {
    if chunks == [] then [] else Concat(chunks[..|chunks| - 1]) + chunks[|chunks| - 1]
  }

  /** However a message is cut into calls of update of at most 2^31 + 64 bytes, the digest depends on the whole message
      alone, and it is the standard's when the length field is. */
  method HashChunks(chunks: seq<seq<Byte>>) returns (digest: array<Byte>)
    requires forall j | 0 <= j < |chunks| :: |chunks[j]| + BLOCK_SIZE <= CALL_LIMIT
    ensures fresh(digest) && digest[..] == CutHash(COMPRESSION, Concat(chunks))
    ensures FieldFits(|Concat(chunks)|) ==> digest[..] == Sha256(Concat(chunks))
  {
    var ctx := new SHA256();
    for j := 0 to |chunks|
      invariant ctx.Valid() && ctx.f == COMPRESSION && fresh(ctx) && fresh(ctx.m_block) && fresh(ctx.m_h)
      invariant ctx.message == Concat(chunks[..j])
    {
      assert chunks[..j + 1][..j] == chunks[..j];
      ctx.Update(chunks[j]);
    }
    assert chunks[..|chunks|] == chunks;
    digest := new Byte[DIGEST_SIZE](_ => Byte(0));
    ctx.Final(digest);
    assert digest[..] == digest[..DIGEST_SIZE];
  }

  /** The function on a whole message, without its hexadecimal text. */
  method Hash(message: seq<Byte>) returns (digest: array<Byte>)
    requires |message| + BLOCK_SIZE <= CALL_LIMIT
    ensures fresh(digest) && digest[..] == CutHash(COMPRESSION, message)
    ensures FieldFits(|message|) ==> digest[..] == Sha256(message)
  {
    var ctx := new SHA256();
    ctx.Update(message);
    assert ctx.message == message;
    digest := new Byte[DIGEST_SIZE](_ => Byte(0));
    ctx.Final(digest);
    assert digest[..] == digest[..DIGEST_SIZE];
  }
}
