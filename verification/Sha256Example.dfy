/** A known answer: the hash of "grape", the test vector of cpp/lib/sha256.h, through every step of the computation. */
module Sha256Example {
  import opened Sha256Standard
  import opened Sha256Stream

  const GRAPE: seq<Byte> := [Byte(0x67), Byte(0x72), Byte(0x61), Byte(0x70), Byte(0x65)]

  const GRAPE_DIGEST: seq<Byte> :=
    [Byte(0x0f), Byte(0x78), Byte(0xfc), Byte(0xc4)] + [Byte(0x86), Byte(0xf5), Byte(0x31), Byte(0x54)] +
    [Byte(0x18), Byte(0xfb), Byte(0xf0), Byte(0x95)] + [Byte(0xe7), Byte(0x1c), Byte(0x06), Byte(0x75)] +
    [Byte(0xee), Byte(0x07), Byte(0xd3), Byte(0x18)] + [Byte(0xe5), Byte(0xac), Byte(0x4d), Byte(0x15)] +
    [Byte(0x00), Byte(0x50), Byte(0xcd), Byte(0x8e)] + [Byte(0x57), Byte(0x96), Byte(0x64), Byte(0x96)]

  // ----- The message schedule -----

  lemma {:induction false} ScheduleExtends(block: seq<Byte>, t: nat, n: nat)
    requires |block| == 64 && t < n
    ensures Schedule(block, n)[t] == Schedule(block, t + 1)[t]
    decreases n
  {
    if t + 1 < n { ScheduleExtends(block, t, n - 1); }
  }

  /** The words of a block, and from the seventeenth on the sum of four earlier ones. */
  lemma ScheduleRule(block: seq<Byte>, t: nat)
    requires |block| == 64 && t < 64
    ensures var w := Schedule(block, 64);
            w[t] == if t < 16 then WordAt(block, t)
                    else Add(Add(Add(SmallSigma1(w[t - 2]), w[t - 7]), SmallSigma0(w[t - 15])), w[t - 16])
  {
    ScheduleExtends(block, t, 65);
    if t < 63 { ScheduleExtends(block, t, 64); }
    if t >= 16 {
      ScheduleEarlier(block, t, t - 2);
      ScheduleEarlier(block, t, t - 7);
      ScheduleEarlier(block, t, t - 15);
      ScheduleEarlier(block, t, t - 16);
    }
  }

  lemma ScheduleEarlier(block: seq<Byte>, t: nat, i: nat)
    requires |block| == 64 && i < t < 64
    ensures Schedule(block, t)[i] == Schedule(block, 64)[i]
  {
    ScheduleExtends(block, i, t);
    ScheduleExtends(block, i, 64);
  }

  lemma FieldOfFive()
    ensures LengthField(5) == Zeros(7) + [Byte(40)]
  {
  }

  /** The padded message. */
  lemma PaddedGrape(j: nat)
    requires j < 64
    ensures |Pad(GRAPE)| == 64
    ensures Pad(GRAPE)[j] == if j < 5 then GRAPE[j] else Byte(if j == 5 then 0x80 else if j == 63 then 40 else 0)
  {
    FieldOfFive();
    assert ZeroBytes(5) == 50;
  }

  /** Eight words, from word t on. */
  ghost predicate WordsAre(w: seq<Word>, t: nat, a: bv32, b: bv32, c: bv32, d: bv32,
                           e: bv32, f: bv32, g: bv32, h: bv32)
  {
    && |w| == 64 && t <= 56
    && w[t] == Word(a) && w[t + 1] == Word(b) && w[t + 2] == Word(c) && w[t + 3] == Word(d)
    && w[t + 4] == Word(e) && w[t + 5] == Word(f) && w[t + 6] == Word(g) && w[t + 7] == Word(h)
  }

  /** A later word, from those 2, 7, 15 and 16 places before it. */
  lemma ExtendedIs(w2: bv32, w7: bv32, w15: bv32, w16: bv32)
    ensures Add(Add(Add(SmallSigma1(Word(w2)), Word(w7)), SmallSigma0(Word(w15))), Word(w16)) ==
            Word(AddBits(AddBits(AddBits(SmallSigma1Bits(w2), w7), SmallSigma0Bits(w15)), w16))
  {
  }

  ghost predicate Follows(w: seq<Word>, t: nat) {
    16 <= t < |w| && w[t] == Add(Add(Add(SmallSigma1(w[t - 2]), w[t - 7]), SmallSigma0(w[t - 15])), w[t - 16])
  }

  ghost predicate IsSchedule(w: seq<Word>) {
    |w| == 64 && forall t: nat | 16 <= t < 64 :: Follows(w, t)
  }

  lemma ScheduleFollows(block: seq<Byte>)
    requires |block| == 64
    ensures IsSchedule(Schedule(block, 64))
  {
    forall t: nat | 16 <= t < 64 ensures Follows(Schedule(block, 64), t) {
      ScheduleRule(block, t);
    }
  }

  lemma NextWord(w: seq<Word>, t: nat, w2: bv32, w7: bv32, w15: bv32, w16: bv32, x: bv32)
    requires IsSchedule(w) && 16 <= t < 64
    requires w[t - 2] == Word(w2) && w[t - 7] == Word(w7) && w[t - 15] == Word(w15) && w[t - 16] == Word(w16)
    requires x == AddBits(AddBits(AddBits(SmallSigma1Bits(w2), w7), SmallSigma0Bits(w15)), w16)
    ensures w[t] == Word(x)
  {
    assert Follows(w, t);
    ExtendedIs(w2, w7, w15, w16);
  }

  lemma BlockWord(block: seq<Byte>, j: nat)
    requires block == Pad(GRAPE) && |block| == 64 && j < 16
    ensures Schedule(block, 64)[j] ==
            Word(if j == 0 then 0x67726170 else if j == 1 then 0x65800000 else if j == 15 then 40 else 0)
  {
    PaddedGrape(4 * j);
    PaddedGrape(4 * j + 1);
    PaddedGrape(4 * j + 2);
    PaddedGrape(4 * j + 3);
    ScheduleRule(block, j);
  }

  lemma BlockRows(block: seq<Byte>)
    requires block == Pad(GRAPE) && |block| == 64
    ensures WordsAre(Schedule(block, 64), 0, 0x67726170, 0x65800000, 0, 0, 0, 0, 0, 0)
    ensures WordsAre(Schedule(block, 64), 8, 0, 0, 0, 0, 0, 0, 0, 40)
  {
    forall j: nat | j < 16
      ensures Schedule(block, 64)[j] ==
              Word(if j == 0 then 0x67726170 else if j == 1 then 0x65800000 else if j == 15 then 40 else 0)
    {
      BlockWord(block, j);
    }
  }

  lemma Row2(w: seq<Word>)
    requires IsSchedule(w)
    requires WordsAre(w, 0,
                      0x67726170, 0x65800000, 0x00000000, 0x00000000, 0x00000000, 0x00000000, 0x00000000, 0x00000000)
    requires WordsAre(w, 8,
                      0x00000000, 0x00000000, 0x00000000, 0x00000000, 0x00000000, 0x00000000, 0x00000000, 0x00000028)
    ensures WordsAre(w, 16,
                     0x73ed7ad0, 0x65910000, 0x122eccd5, 0xa0195a3a, 0xbff4a0e1, 0x86720259, 0xc4431554, 0xb533ea47)
  {
    NextWord(w, 16, 0x00000000, 0x00000000, 0x65800000, 0x67726170, 0x73ed7ad0);
    NextWord(w, 17, 0x00000028, 0x00000000, 0x00000000, 0x65800000, 0x65910000);
    NextWord(w, 18, 0x73ed7ad0, 0x00000000, 0x00000000, 0x00000000, 0x122eccd5);
    NextWord(w, 19, 0x65910000, 0x00000000, 0x00000000, 0x00000000, 0xa0195a3a);
    NextWord(w, 20, 0x122eccd5, 0x00000000, 0x00000000, 0x00000000, 0xbff4a0e1);
    NextWord(w, 21, 0xa0195a3a, 0x00000000, 0x00000000, 0x00000000, 0x86720259);
    NextWord(w, 22, 0xbff4a0e1, 0x00000028, 0x00000000, 0x00000000, 0xc4431554);
    NextWord(w, 23, 0x86720259, 0x73ed7ad0, 0x00000000, 0x00000000, 0xb533ea47);
  }

  lemma Row3(w: seq<Word>)
    requires IsSchedule(w)
    requires WordsAre(w, 8,
                      0x00000000, 0x00000000, 0x00000000, 0x00000000, 0x00000000, 0x00000000, 0x00000000, 0x00000028)
    requires WordsAre(w, 16,
                      0x73ed7ad0, 0x65910000, 0x122eccd5, 0xa0195a3a, 0xbff4a0e1, 0x86720259, 0xc4431554, 0xb533ea47)
    ensures WordsAre(w, 24,
                     0x4dc2ea6c, 0x9a752d9a, 0xc8823a1d, 0xf34d2420, 0xe0f18038, 0xfaebc9da, 0xf5613a52, 0xdbd9ecc2)
  {
    NextWord(w, 24, 0xc4431554, 0x65910000, 0x00000000, 0x00000000, 0x4dc2ea6c);
    NextWord(w, 25, 0xb533ea47, 0x122eccd5, 0x00000000, 0x00000000, 0x9a752d9a);
    NextWord(w, 26, 0x4dc2ea6c, 0xa0195a3a, 0x00000000, 0x00000000, 0xc8823a1d);
    NextWord(w, 27, 0x9a752d9a, 0xbff4a0e1, 0x00000000, 0x00000000, 0xf34d2420);
    NextWord(w, 28, 0xc8823a1d, 0x86720259, 0x00000000, 0x00000000, 0xe0f18038);
    NextWord(w, 29, 0xf34d2420, 0xc4431554, 0x00000000, 0x00000000, 0xfaebc9da);
    NextWord(w, 30, 0xe0f18038, 0xb533ea47, 0x00000028, 0x00000000, 0xf5613a52);
    NextWord(w, 31, 0xfaebc9da, 0x4dc2ea6c, 0x73ed7ad0, 0x00000028, 0xdbd9ecc2);
  }

  lemma Row4(w: seq<Word>)
    requires IsSchedule(w)
    requires WordsAre(w, 16,
                      0x73ed7ad0, 0x65910000, 0x122eccd5, 0xa0195a3a, 0xbff4a0e1, 0x86720259, 0xc4431554, 0xb533ea47)
    requires WordsAre(w, 24,
                      0x4dc2ea6c, 0x9a752d9a, 0xc8823a1d, 0xf34d2420, 0xe0f18038, 0xfaebc9da, 0xf5613a52, 0xdbd9ecc2)
    ensures WordsAre(w, 32,
                     0x153a4020, 0x1537bb91, 0xa55ae994, 0xa883d2e5, 0x0806c14a, 0x832d53e0, 0xbc093e99, 0x39d390f7)
  {
    NextWord(w, 32, 0xf5613a52, 0x9a752d9a, 0x65910000, 0x73ed7ad0, 0x153a4020);
    NextWord(w, 33, 0xdbd9ecc2, 0xc8823a1d, 0x122eccd5, 0x65910000, 0x1537bb91);
    NextWord(w, 34, 0x153a4020, 0xf34d2420, 0xa0195a3a, 0x122eccd5, 0xa55ae994);
    NextWord(w, 35, 0x1537bb91, 0xe0f18038, 0xbff4a0e1, 0xa0195a3a, 0xa883d2e5);
    NextWord(w, 36, 0xa55ae994, 0xfaebc9da, 0x86720259, 0xbff4a0e1, 0x0806c14a);
    NextWord(w, 37, 0xa883d2e5, 0xf5613a52, 0xc4431554, 0x86720259, 0x832d53e0);
    NextWord(w, 38, 0x0806c14a, 0xdbd9ecc2, 0xb533ea47, 0xc4431554, 0xbc093e99);
    NextWord(w, 39, 0x832d53e0, 0x153a4020, 0x4dc2ea6c, 0xb533ea47, 0x39d390f7);
  }

  lemma Row5(w: seq<Word>)
    requires IsSchedule(w)
    requires WordsAre(w, 24,
                      0x4dc2ea6c, 0x9a752d9a, 0xc8823a1d, 0xf34d2420, 0xe0f18038, 0xfaebc9da, 0xf5613a52, 0xdbd9ecc2)
    requires WordsAre(w, 32,
                      0x153a4020, 0x1537bb91, 0xa55ae994, 0xa883d2e5, 0x0806c14a, 0x832d53e0, 0xbc093e99, 0x39d390f7)
    ensures WordsAre(w, 40,
                     0x88c87b3c, 0xa641577c, 0xba68f684, 0x8a9e2862, 0x22b9346e, 0x7de7146f, 0xd1e37f46, 0x9fccca52)
  {
    NextWord(w, 40, 0xbc093e99, 0x1537bb91, 0x9a752d9a, 0x4dc2ea6c, 0x88c87b3c);
    NextWord(w, 41, 0x39d390f7, 0xa55ae994, 0xc8823a1d, 0x9a752d9a, 0xa641577c);
    NextWord(w, 42, 0x88c87b3c, 0xa883d2e5, 0xf34d2420, 0xc8823a1d, 0xba68f684);
    NextWord(w, 43, 0xa641577c, 0x0806c14a, 0xe0f18038, 0xf34d2420, 0x8a9e2862);
    NextWord(w, 44, 0xba68f684, 0x832d53e0, 0xfaebc9da, 0xe0f18038, 0x22b9346e);
    NextWord(w, 45, 0x8a9e2862, 0xbc093e99, 0xf5613a52, 0xfaebc9da, 0x7de7146f);
    NextWord(w, 46, 0x22b9346e, 0x39d390f7, 0xdbd9ecc2, 0xf5613a52, 0xd1e37f46);
    NextWord(w, 47, 0x7de7146f, 0x88c87b3c, 0x153a4020, 0xdbd9ecc2, 0x9fccca52);
  }

  lemma Row6(w: seq<Word>)
    requires IsSchedule(w)
    requires WordsAre(w, 32,
                      0x153a4020, 0x1537bb91, 0xa55ae994, 0xa883d2e5, 0x0806c14a, 0x832d53e0, 0xbc093e99, 0x39d390f7)
    requires WordsAre(w, 40,
                      0x88c87b3c, 0xa641577c, 0xba68f684, 0x8a9e2862, 0x22b9346e, 0x7de7146f, 0xd1e37f46, 0x9fccca52)
    ensures WordsAre(w, 48,
                     0x5a643ef6, 0x536a62f9, 0xf3a4a940, 0x6db6b83d, 0xcd3e3455, 0x4b72a495, 0x45dd34eb, 0x11ca5e0e)
  {
    NextWord(w, 48, 0xd1e37f46, 0xa641577c, 0x1537bb91, 0x153a4020, 0x5a643ef6);
    NextWord(w, 49, 0x9fccca52, 0xba68f684, 0xa55ae994, 0x1537bb91, 0x536a62f9);
    NextWord(w, 50, 0x5a643ef6, 0x8a9e2862, 0xa883d2e5, 0xa55ae994, 0xf3a4a940);
    NextWord(w, 51, 0x536a62f9, 0x22b9346e, 0x0806c14a, 0xa883d2e5, 0x6db6b83d);
    NextWord(w, 52, 0xf3a4a940, 0x7de7146f, 0x832d53e0, 0x0806c14a, 0xcd3e3455);
    NextWord(w, 53, 0x6db6b83d, 0xd1e37f46, 0xbc093e99, 0x832d53e0, 0x4b72a495);
    NextWord(w, 54, 0xcd3e3455, 0x9fccca52, 0x39d390f7, 0xbc093e99, 0x45dd34eb);
    NextWord(w, 55, 0x4b72a495, 0x5a643ef6, 0x88c87b3c, 0x39d390f7, 0x11ca5e0e);
  }

  lemma Row7(w: seq<Word>)
    requires IsSchedule(w)
    requires WordsAre(w, 40,
                      0x88c87b3c, 0xa641577c, 0xba68f684, 0x8a9e2862, 0x22b9346e, 0x7de7146f, 0xd1e37f46, 0x9fccca52)
    requires WordsAre(w, 48,
                      0x5a643ef6, 0x536a62f9, 0xf3a4a940, 0x6db6b83d, 0xcd3e3455, 0x4b72a495, 0x45dd34eb, 0x11ca5e0e)
    ensures WordsAre(w, 56,
                     0xd1881d1e, 0x22419aae, 0x9396dbae, 0xeaf07e10, 0x390f4aee, 0x3d033b01, 0xb4251cf5, 0x548aba99)
  {
    NextWord(w, 56, 0x45dd34eb, 0x536a62f9, 0xa641577c, 0x88c87b3c, 0xd1881d1e);
    NextWord(w, 57, 0x11ca5e0e, 0xf3a4a940, 0xba68f684, 0xa641577c, 0x22419aae);
    NextWord(w, 58, 0xd1881d1e, 0x6db6b83d, 0x8a9e2862, 0xba68f684, 0x9396dbae);
    NextWord(w, 59, 0x22419aae, 0xcd3e3455, 0x22b9346e, 0x8a9e2862, 0xeaf07e10);
    NextWord(w, 60, 0x9396dbae, 0x4b72a495, 0x7de7146f, 0x22b9346e, 0x390f4aee);
    NextWord(w, 61, 0xeaf07e10, 0x45dd34eb, 0xd1e37f46, 0x7de7146f, 0x3d033b01);
    NextWord(w, 62, 0x390f4aee, 0x11ca5e0e, 0x9fccca52, 0xd1e37f46, 0xb4251cf5);
    NextWord(w, 63, 0x3d033b01, 0xd1881d1e, 0x5a643ef6, 0x9fccca52, 0x548aba99);
  }

  // ----- The rounds -----

  /** The working variables after t rounds. */
  ghost predicate StateIs(v: Eight, w: seq<Word>, t: nat, a: bv32, b: bv32, c: bv32, d: bv32,
                          e: bv32, f: bv32, g: bv32, h: bv32)
  {
    && |w| == 64 == |K| && t <= 64
    && Rounds(v, w, K, t) == Eight(Word(a), Word(b), Word(c), Word(d), Word(e), Word(f), Word(g), Word(h))
  }

  function FirstSum(e: bv32, f: bv32, g: bv32, h: bv32, k: bv32, w: bv32): bv32 {
    AddBits(AddBits(AddBits(AddBits(h, BigSigma1Bits(e)), ChBits(e, f, g)), k), w)
  }

  function SecondSum(a: bv32, b: bv32, c: bv32): bv32 {
    AddBits(BigSigma0Bits(a), MajBits(a, b, c))
  }

  lemma SumsAre(a: bv32, b: bv32, c: bv32, d: bv32, e: bv32, f: bv32, g: bv32, h: bv32, k: bv32, x: bv32)
    ensures var v := Eight(Word(a), Word(b), Word(c), Word(d), Word(e), Word(f), Word(g), Word(h));
            T1(v, Word(k), Word(x)) == Word(FirstSum(e, f, g, h, k, x)) && T2(v) == Word(SecondSum(a, b, c))
  {
  }

  lemma NextRound(v: Eight, w: seq<Word>, t: nat, a: bv32, b: bv32, c: bv32, d: bv32,
                  e: bv32, f: bv32, g: bv32, h: bv32, k: bv32, x: bv32)
    requires t < 64 && StateIs(v, w, t, a, b, c, d, e, f, g, h) && K[t] == Word(k) && w[t] == Word(x)
    ensures var s := FirstSum(e, f, g, h, k, x);
            StateIs(v, w, t + 1, AddBits(s, SecondSum(a, b, c)), a, b, c, AddBits(d, s), e, f, g)
  {
    SumsAre(a, b, c, d, e, f, g, h, k, x);
  }

  /** Four rounds replace all eight variables. */
  lemma FourRounds(v: Eight, w: seq<Word>, t: nat, k0: bv32, k1: bv32, k2: bv32, k3: bv32,
                   x0: bv32, x1: bv32, x2: bv32, x3: bv32,
                   a: bv32, b: bv32, c: bv32, d: bv32, e: bv32, f: bv32, g: bv32, h: bv32,
                   a': bv32, b': bv32, c': bv32, d': bv32, e': bv32, f': bv32, g': bv32, h': bv32)
    requires t <= 60 && StateIs(v, w, t, a, b, c, d, e, f, g, h)
    requires K[t] == Word(k0) && K[t + 1] == Word(k1) && K[t + 2] == Word(k2) && K[t + 3] == Word(k3)
    requires w[t] == Word(x0) && w[t + 1] == Word(x1) && w[t + 2] == Word(x2) && w[t + 3] == Word(x3)
    requires var s := FirstSum(e, f, g, h, k0, x0); h' == AddBits(d, s) && d' == AddBits(s, SecondSum(a, b, c))
    requires var s := FirstSum(h', e, f, g, k1, x1); g' == AddBits(c, s) && c' == AddBits(s, SecondSum(d', a, b))
    requires var s := FirstSum(g', h', e, f, k2, x2); f' == AddBits(b, s) && b' == AddBits(s, SecondSum(c', d', a))
    requires var s := FirstSum(f', g', h', e, k3, x3); e' == AddBits(a, s) && a' == AddBits(s, SecondSum(b', c', d'))
    ensures StateIs(v, w, t + 4, a', b', c', d', e', f', g', h')
  {
    NextRound(v, w, t, a, b, c, d, e, f, g, h, k0, x0);
    NextRound(v, w, t + 1, d', a, b, c, h', e, f, g, k1, x1);
    NextRound(v, w, t + 2, c', d', a, b, g', h', e, f, k2, x2);
    NextRound(v, w, t + 3, b', c', d', a, f', g', h', e, k3, x3);
  }

  lemma RoundsTo4(v: Eight, w: seq<Word>)
    requires StateIs(v, w, 0,
                     0x6a09e667, 0xbb67ae85, 0x3c6ef372, 0xa54ff53a, 0x510e527f, 0x9b05688c, 0x1f83d9ab, 0x5be0cd19)
    requires WordsAre(w, 0,
                      0x67726170, 0x65800000, 0x00000000, 0x00000000, 0x00000000, 0x00000000, 0x00000000, 0x00000000)
    ensures StateIs(v, w, 4,
                    0xca8076fe, 0x394322a7, 0xd2acb10c, 0x637ae9bd, 0xe93c1d63, 0x84786593, 0xa51c61a4, 0x003a4412)
  {
    FourRounds(v, w, 0, 0x428a2f98, 0x71374491, 0xb5c0fbcf, 0xe9b5dba5, 0x67726170, 0x65800000, 0x00000000, 0x00000000,
                       0x6a09e667, 0xbb67ae85, 0x3c6ef372, 0xa54ff53a, 0x510e527f, 0x9b05688c, 0x1f83d9ab, 0x5be0cd19,
                       0xca8076fe, 0x394322a7, 0xd2acb10c, 0x637ae9bd, 0xe93c1d63, 0x84786593, 0xa51c61a4, 0x003a4412);
  }

  lemma RoundsTo8(v: Eight, w: seq<Word>)
    requires StateIs(v, w, 4,
                     0xca8076fe, 0x394322a7, 0xd2acb10c, 0x637ae9bd, 0xe93c1d63, 0x84786593, 0xa51c61a4, 0x003a4412)
    requires WordsAre(w, 0,
                      0x67726170, 0x65800000, 0x00000000, 0x00000000, 0x00000000, 0x00000000, 0x00000000, 0x00000000)
    ensures StateIs(v, w, 8,
                    0x1852186c, 0x0e210bf8, 0xed87edbd, 0x5aaeb73a, 0xbbc30be4, 0x73a4d5fb, 0xd00cd63a, 0xdf1bbbb3)
  {
    FourRounds(v, w, 4, 0x3956c25b, 0x59f111f1, 0x923f82a4, 0xab1c5ed5, 0x00000000, 0x00000000, 0x00000000, 0x00000000,
                       0xca8076fe, 0x394322a7, 0xd2acb10c, 0x637ae9bd, 0xe93c1d63, 0x84786593, 0xa51c61a4, 0x003a4412,
                       0x1852186c, 0x0e210bf8, 0xed87edbd, 0x5aaeb73a, 0xbbc30be4, 0x73a4d5fb, 0xd00cd63a, 0xdf1bbbb3);
  }

  lemma RoundsTo12(v: Eight, w: seq<Word>)
    requires StateIs(v, w, 8,
                     0x1852186c, 0x0e210bf8, 0xed87edbd, 0x5aaeb73a, 0xbbc30be4, 0x73a4d5fb, 0xd00cd63a, 0xdf1bbbb3)
    requires WordsAre(w, 8,
                      0x00000000, 0x00000000, 0x00000000, 0x00000000, 0x00000000, 0x00000000, 0x00000000, 0x00000028)
    ensures StateIs(v, w, 12,
                    0x3e0aa8e2, 0xc7c9b14a, 0x6cf1b0f9, 0xd3c6c13e, 0x713996d4, 0x62e33ec6, 0x9a33c004, 0x955c7992)
  {
    FourRounds(v, w, 8, 0xd807aa98, 0x12835b01, 0x243185be, 0x550c7dc3, 0x00000000, 0x00000000, 0x00000000, 0x00000000,
                       0x1852186c, 0x0e210bf8, 0xed87edbd, 0x5aaeb73a, 0xbbc30be4, 0x73a4d5fb, 0xd00cd63a, 0xdf1bbbb3,
                       0x3e0aa8e2, 0xc7c9b14a, 0x6cf1b0f9, 0xd3c6c13e, 0x713996d4, 0x62e33ec6, 0x9a33c004, 0x955c7992);
  }

  lemma RoundsTo16(v: Eight, w: seq<Word>)
    requires StateIs(v, w, 12,
                     0x3e0aa8e2, 0xc7c9b14a, 0x6cf1b0f9, 0xd3c6c13e, 0x713996d4, 0x62e33ec6, 0x9a33c004, 0x955c7992)
    requires WordsAre(w, 8,
                      0x00000000, 0x00000000, 0x00000000, 0x00000000, 0x00000000, 0x00000000, 0x00000000, 0x00000028)
    ensures StateIs(v, w, 16,
                    0xfd68b9ac, 0xad3cc9de, 0x770d9394, 0x5aba5c9a, 0xa59967cb, 0x3fcd5541, 0xea666025, 0xdd869a59)
  {
    FourRounds(v, w, 12, 0x72be5d74, 0x80deb1fe, 0x9bdc06a7, 0xc19bf174, 0x00000000, 0x00000000, 0x00000000, 0x00000028,
                        0x3e0aa8e2, 0xc7c9b14a, 0x6cf1b0f9, 0xd3c6c13e, 0x713996d4, 0x62e33ec6, 0x9a33c004, 0x955c7992,
                        0xfd68b9ac, 0xad3cc9de, 0x770d9394, 0x5aba5c9a, 0xa59967cb, 0x3fcd5541, 0xea666025, 0xdd869a59);
  }

  lemma RoundsTo20(v: Eight, w: seq<Word>)
    requires StateIs(v, w, 16,
                     0xfd68b9ac, 0xad3cc9de, 0x770d9394, 0x5aba5c9a, 0xa59967cb, 0x3fcd5541, 0xea666025, 0xdd869a59)
    requires WordsAre(w, 16,
                      0x73ed7ad0, 0x65910000, 0x122eccd5, 0xa0195a3a, 0xbff4a0e1, 0x86720259, 0xc4431554, 0xb533ea47)
    ensures StateIs(v, w, 20,
                    0xaa64e828, 0x6b7494e4, 0x9be3e8ad, 0x0f580827, 0x2caf29ff, 0xcd1222ba, 0x82aa0d9f, 0x1c0a544a)
  {
    FourRounds(v, w, 16, 0xe49b69c1, 0xefbe4786, 0x0fc19dc6, 0x240ca1cc, 0x73ed7ad0, 0x65910000, 0x122eccd5, 0xa0195a3a,
                        0xfd68b9ac, 0xad3cc9de, 0x770d9394, 0x5aba5c9a, 0xa59967cb, 0x3fcd5541, 0xea666025, 0xdd869a59,
                        0xaa64e828, 0x6b7494e4, 0x9be3e8ad, 0x0f580827, 0x2caf29ff, 0xcd1222ba, 0x82aa0d9f, 0x1c0a544a);
  }

  lemma RoundsTo24(v: Eight, w: seq<Word>)
    requires StateIs(v, w, 20,
                     0xaa64e828, 0x6b7494e4, 0x9be3e8ad, 0x0f580827, 0x2caf29ff, 0xcd1222ba, 0x82aa0d9f, 0x1c0a544a)
    requires WordsAre(w, 16,
                      0x73ed7ad0, 0x65910000, 0x122eccd5, 0xa0195a3a, 0xbff4a0e1, 0x86720259, 0xc4431554, 0xb533ea47)
    ensures StateIs(v, w, 24,
                    0xaf5ae9f5, 0xb034f07e, 0x42b0dc42, 0xd08fd158, 0x8cd1ba4b, 0xa735817e, 0x728fe11d, 0x3c06254f)
  {
    FourRounds(v, w, 20, 0x2de92c6f, 0x4a7484aa, 0x5cb0a9dc, 0x76f988da, 0xbff4a0e1, 0x86720259, 0xc4431554, 0xb533ea47,
                        0xaa64e828, 0x6b7494e4, 0x9be3e8ad, 0x0f580827, 0x2caf29ff, 0xcd1222ba, 0x82aa0d9f, 0x1c0a544a,
                        0xaf5ae9f5, 0xb034f07e, 0x42b0dc42, 0xd08fd158, 0x8cd1ba4b, 0xa735817e, 0x728fe11d, 0x3c06254f);
  }

  lemma RoundsTo28(v: Eight, w: seq<Word>)
    requires StateIs(v, w, 24,
                     0xaf5ae9f5, 0xb034f07e, 0x42b0dc42, 0xd08fd158, 0x8cd1ba4b, 0xa735817e, 0x728fe11d, 0x3c06254f)
    requires WordsAre(w, 24,
                      0x4dc2ea6c, 0x9a752d9a, 0xc8823a1d, 0xf34d2420, 0xe0f18038, 0xfaebc9da, 0xf5613a52, 0xdbd9ecc2)
    ensures StateIs(v, w, 28,
                    0xf8dcbabd, 0x52e89dd9, 0xe44327db, 0x19d42a10, 0x3f6f9f60, 0x8a7ade08, 0x67419767, 0xf856ecdb)
  {
    FourRounds(v, w, 24, 0x983e5152, 0xa831c66d, 0xb00327c8, 0xbf597fc7, 0x4dc2ea6c, 0x9a752d9a, 0xc8823a1d, 0xf34d2420,
                        0xaf5ae9f5, 0xb034f07e, 0x42b0dc42, 0xd08fd158, 0x8cd1ba4b, 0xa735817e, 0x728fe11d, 0x3c06254f,
                        0xf8dcbabd, 0x52e89dd9, 0xe44327db, 0x19d42a10, 0x3f6f9f60, 0x8a7ade08, 0x67419767, 0xf856ecdb);
  }

  lemma RoundsTo32(v: Eight, w: seq<Word>)
    requires StateIs(v, w, 28,
                     0xf8dcbabd, 0x52e89dd9, 0xe44327db, 0x19d42a10, 0x3f6f9f60, 0x8a7ade08, 0x67419767, 0xf856ecdb)
    requires WordsAre(w, 24,
                      0x4dc2ea6c, 0x9a752d9a, 0xc8823a1d, 0xf34d2420, 0xe0f18038, 0xfaebc9da, 0xf5613a52, 0xdbd9ecc2)
    ensures StateIs(v, w, 32,
                    0x33e1fbd3, 0x8048f6fc, 0x0fe14663, 0x8fc3da20, 0xe8cf1237, 0xcd761807, 0x1bbfc8dc, 0xdf9d24ae)
  {
    FourRounds(v, w, 28, 0xc6e00bf3, 0xd5a79147, 0x06ca6351, 0x14292967, 0xe0f18038, 0xfaebc9da, 0xf5613a52, 0xdbd9ecc2,
                        0xf8dcbabd, 0x52e89dd9, 0xe44327db, 0x19d42a10, 0x3f6f9f60, 0x8a7ade08, 0x67419767, 0xf856ecdb,
                        0x33e1fbd3, 0x8048f6fc, 0x0fe14663, 0x8fc3da20, 0xe8cf1237, 0xcd761807, 0x1bbfc8dc, 0xdf9d24ae);
  }

  lemma RoundsTo36(v: Eight, w: seq<Word>)
    requires StateIs(v, w, 32,
                     0x33e1fbd3, 0x8048f6fc, 0x0fe14663, 0x8fc3da20, 0xe8cf1237, 0xcd761807, 0x1bbfc8dc, 0xdf9d24ae)
    requires WordsAre(w, 32,
                      0x153a4020, 0x1537bb91, 0xa55ae994, 0xa883d2e5, 0x0806c14a, 0x832d53e0, 0xbc093e99, 0x39d390f7)
    ensures StateIs(v, w, 36,
                    0xaf4fbd04, 0xc7f1b36d, 0x04f21511, 0x904d2aa7, 0x31e0a169, 0x1578880f, 0xff0409fc, 0x86a060a0)
  {
    FourRounds(v, w, 32, 0x27b70a85, 0x2e1b2138, 0x4d2c6dfc, 0x53380d13, 0x153a4020, 0x1537bb91, 0xa55ae994, 0xa883d2e5,
                        0x33e1fbd3, 0x8048f6fc, 0x0fe14663, 0x8fc3da20, 0xe8cf1237, 0xcd761807, 0x1bbfc8dc, 0xdf9d24ae,
                        0xaf4fbd04, 0xc7f1b36d, 0x04f21511, 0x904d2aa7, 0x31e0a169, 0x1578880f, 0xff0409fc, 0x86a060a0);
  }

  lemma RoundsTo40(v: Eight, w: seq<Word>)
    requires StateIs(v, w, 36,
                     0xaf4fbd04, 0xc7f1b36d, 0x04f21511, 0x904d2aa7, 0x31e0a169, 0x1578880f, 0xff0409fc, 0x86a060a0)
    requires WordsAre(w, 32,
                      0x153a4020, 0x1537bb91, 0xa55ae994, 0xa883d2e5, 0x0806c14a, 0x832d53e0, 0xbc093e99, 0x39d390f7)
    ensures StateIs(v, w, 40,
                    0x60f8630a, 0x843b2596, 0x28d0dbf5, 0xd1bd646a, 0x2e62076c, 0xcb5c36c7, 0x031cbbe3, 0xdd14528b)
  {
    FourRounds(v, w, 36, 0x650a7354, 0x766a0abb, 0x81c2c92e, 0x92722c85, 0x0806c14a, 0x832d53e0, 0xbc093e99, 0x39d390f7,
                        0xaf4fbd04, 0xc7f1b36d, 0x04f21511, 0x904d2aa7, 0x31e0a169, 0x1578880f, 0xff0409fc, 0x86a060a0,
                        0x60f8630a, 0x843b2596, 0x28d0dbf5, 0xd1bd646a, 0x2e62076c, 0xcb5c36c7, 0x031cbbe3, 0xdd14528b);
  }

  lemma RoundsTo44(v: Eight, w: seq<Word>)
    requires StateIs(v, w, 40,
                     0x60f8630a, 0x843b2596, 0x28d0dbf5, 0xd1bd646a, 0x2e62076c, 0xcb5c36c7, 0x031cbbe3, 0xdd14528b)
    requires WordsAre(w, 40,
                      0x88c87b3c, 0xa641577c, 0xba68f684, 0x8a9e2862, 0x22b9346e, 0x7de7146f, 0xd1e37f46, 0x9fccca52)
    ensures StateIs(v, w, 44,
                    0xf391a14b, 0x0652740d, 0xe6b083ee, 0x03130191, 0xa64b673f, 0xc308e734, 0x0efba161, 0x51f6cbe3)
  {
    FourRounds(v, w, 40, 0xa2bfe8a1, 0xa81a664b, 0xc24b8b70, 0xc76c51a3, 0x88c87b3c, 0xa641577c, 0xba68f684, 0x8a9e2862,
                        0x60f8630a, 0x843b2596, 0x28d0dbf5, 0xd1bd646a, 0x2e62076c, 0xcb5c36c7, 0x031cbbe3, 0xdd14528b,
                        0xf391a14b, 0x0652740d, 0xe6b083ee, 0x03130191, 0xa64b673f, 0xc308e734, 0x0efba161, 0x51f6cbe3);
  }

  lemma RoundsTo48(v: Eight, w: seq<Word>)
    requires StateIs(v, w, 44,
                     0xf391a14b, 0x0652740d, 0xe6b083ee, 0x03130191, 0xa64b673f, 0xc308e734, 0x0efba161, 0x51f6cbe3)
    requires WordsAre(w, 40,
                      0x88c87b3c, 0xa641577c, 0xba68f684, 0x8a9e2862, 0x22b9346e, 0x7de7146f, 0xd1e37f46, 0x9fccca52)
    ensures StateIs(v, w, 48,
                    0x30fddaa2, 0xcd0afe8d, 0x6f3a3c0a, 0xa4a9c761, 0x8a8d9d24, 0x5835ede0, 0xba1e08ab, 0x10ed4c92)
  {
    FourRounds(v, w, 44, 0xd192e819, 0xd6990624, 0xf40e3585, 0x106aa070, 0x22b9346e, 0x7de7146f, 0xd1e37f46, 0x9fccca52,
                        0xf391a14b, 0x0652740d, 0xe6b083ee, 0x03130191, 0xa64b673f, 0xc308e734, 0x0efba161, 0x51f6cbe3,
                        0x30fddaa2, 0xcd0afe8d, 0x6f3a3c0a, 0xa4a9c761, 0x8a8d9d24, 0x5835ede0, 0xba1e08ab, 0x10ed4c92);
  }

  lemma RoundsTo52(v: Eight, w: seq<Word>)
    requires StateIs(v, w, 48,
                     0x30fddaa2, 0xcd0afe8d, 0x6f3a3c0a, 0xa4a9c761, 0x8a8d9d24, 0x5835ede0, 0xba1e08ab, 0x10ed4c92)
    requires WordsAre(w, 48,
                      0x5a643ef6, 0x536a62f9, 0xf3a4a940, 0x6db6b83d, 0xcd3e3455, 0x4b72a495, 0x45dd34eb, 0x11ca5e0e)
    ensures StateIs(v, w, 52,
                    0xf7d7519e, 0x06a8cd4a, 0xe0910a69, 0x490347da, 0x9f84aee8, 0x03df9f5d, 0x65317721, 0xd22d972c)
  {
    FourRounds(v, w, 48, 0x19a4c116, 0x1e376c08, 0x2748774c, 0x34b0bcb5, 0x5a643ef6, 0x536a62f9, 0xf3a4a940, 0x6db6b83d,
                        0x30fddaa2, 0xcd0afe8d, 0x6f3a3c0a, 0xa4a9c761, 0x8a8d9d24, 0x5835ede0, 0xba1e08ab, 0x10ed4c92,
                        0xf7d7519e, 0x06a8cd4a, 0xe0910a69, 0x490347da, 0x9f84aee8, 0x03df9f5d, 0x65317721, 0xd22d972c);
  }

  lemma RoundsTo56(v: Eight, w: seq<Word>)
    requires StateIs(v, w, 52,
                     0xf7d7519e, 0x06a8cd4a, 0xe0910a69, 0x490347da, 0x9f84aee8, 0x03df9f5d, 0x65317721, 0xd22d972c)
    requires WordsAre(w, 48,
                      0x5a643ef6, 0x536a62f9, 0xf3a4a940, 0x6db6b83d, 0xcd3e3455, 0x4b72a495, 0x45dd34eb, 0x11ca5e0e)
    ensures StateIs(v, w, 56,
                    0x37cbd821, 0x5445d572, 0x9a7c3c52, 0x4c4da82a, 0xa97f4f2a, 0xc796d406, 0x4f5ddc5b, 0x427b95b8)
  {
    FourRounds(v, w, 52, 0x391c0cb3, 0x4ed8aa4a, 0x5b9cca4f, 0x682e6ff3, 0xcd3e3455, 0x4b72a495, 0x45dd34eb, 0x11ca5e0e,
                        0xf7d7519e, 0x06a8cd4a, 0xe0910a69, 0x490347da, 0x9f84aee8, 0x03df9f5d, 0x65317721, 0xd22d972c,
                        0x37cbd821, 0x5445d572, 0x9a7c3c52, 0x4c4da82a, 0xa97f4f2a, 0xc796d406, 0x4f5ddc5b, 0x427b95b8);
  }

  lemma RoundsTo60(v: Eight, w: seq<Word>)
    requires StateIs(v, w, 56,
                     0x37cbd821, 0x5445d572, 0x9a7c3c52, 0x4c4da82a, 0xa97f4f2a, 0xc796d406, 0x4f5ddc5b, 0x427b95b8)
    requires WordsAre(w, 56,
                      0xd1881d1e, 0x22419aae, 0x9396dbae, 0xeaf07e10, 0x390f4aee, 0x3d033b01, 0xb4251cf5, 0x548aba99)
    ensures StateIs(v, w, 60,
                    0x93acff58, 0x7e6fb352, 0xc21a9143, 0xf9eafa93, 0x1548cdd6, 0xce0cf535, 0x65bbb74e, 0x8c4ef9c2)
  {
    FourRounds(v, w, 56, 0x748f82ee, 0x78a5636f, 0x84c87814, 0x8cc70208, 0xd1881d1e, 0x22419aae, 0x9396dbae, 0xeaf07e10,
                        0x37cbd821, 0x5445d572, 0x9a7c3c52, 0x4c4da82a, 0xa97f4f2a, 0xc796d406, 0x4f5ddc5b, 0x427b95b8,
                        0x93acff58, 0x7e6fb352, 0xc21a9143, 0xf9eafa93, 0x1548cdd6, 0xce0cf535, 0x65bbb74e, 0x8c4ef9c2);
  }

  lemma RoundsTo64(v: Eight, w: seq<Word>)
    requires StateIs(v, w, 60,
                     0x93acff58, 0x7e6fb352, 0xc21a9143, 0xf9eafa93, 0x1548cdd6, 0xce0cf535, 0x65bbb74e, 0x8c4ef9c2)
    requires WordsAre(w, 56,
                      0xd1881d1e, 0x22419aae, 0x9396dbae, 0xeaf07e10, 0x390f4aee, 0x3d033b01, 0xb4251cf5, 0x548aba99)
    ensures StateIs(v, w, 64,
                    0xa56f165d, 0xcb8d82cf, 0xdc8cfd23, 0x41cc113b, 0x9cf98099, 0x4aa6e489, 0xe0ccf3e3, 0xfbb5977d)
  {
    FourRounds(v, w, 60, 0x90befffa, 0xa4506ceb, 0xbef9a3f7, 0xc67178f2, 0x390f4aee, 0x3d033b01, 0xb4251cf5, 0x548aba99,
                        0x93acff58, 0x7e6fb352, 0xc21a9143, 0xf9eafa93, 0x1548cdd6, 0xce0cf535, 0x65bbb74e, 0x8c4ef9c2,
                        0xa56f165d, 0xcb8d82cf, 0xdc8cfd23, 0x41cc113b, 0x9cf98099, 0x4aa6e489, 0xe0ccf3e3, 0xfbb5977d);
  }

  /** All words and all rounds. */
  lemma AllRounds(block: seq<Byte>) returns (w: seq<Word>)
    requires block == Pad(GRAPE) && |block| == 64
    ensures w == Schedule(block, 64)
    ensures StateIs(H0, w, 64,
                    0xa56f165d, 0xcb8d82cf, 0xdc8cfd23, 0x41cc113b, 0x9cf98099, 0x4aa6e489, 0xe0ccf3e3, 0xfbb5977d)
  {
    w := Schedule(block, 64);
    BlockRows(block);
    ScheduleFollows(block);
    Row2(w);
    Row3(w);
    Row4(w);
    Row5(w);
    Row6(w);
    Row7(w);
    RoundsTo4(H0, w);
    RoundsTo8(H0, w);
    RoundsTo12(H0, w);
    RoundsTo16(H0, w);
    RoundsTo20(H0, w);
    RoundsTo24(H0, w);
    RoundsTo28(H0, w);
    RoundsTo32(H0, w);
    RoundsTo36(H0, w);
    RoundsTo40(H0, w);
    RoundsTo44(H0, w);
    RoundsTo48(H0, w);
    RoundsTo52(H0, w);
    RoundsTo56(H0, w);
    RoundsTo60(H0, w);
    RoundsTo64(H0, w);
  }

  // ----- The digest -----

  /** A further word of the digest, as four bytes. */
  lemma NextBytes(w: seq<Word>, i: nat, d: seq<Byte>, a: bv8, b: bv8, c: bv8, e: bv8) returns (d': seq<Byte>)
    requires i < |w| && Digest(w[..i]) == d
    requires w[i] == Word(((a as bv32) << 24) | ((b as bv32) << 16) | ((c as bv32) << 8) | (e as bv32))
    ensures d' == d + [Byte(a), Byte(b), Byte(c), Byte(e)] && Digest(w[..i + 1]) == d'
  {
    d' := Digest(w[..i + 1]);
    assert w[..i + 1][..i] == w[..i];
  }

  lemma FirstHalf(w: seq<Word>) returns (d: seq<Byte>)
    requires |w| == 8
    requires w[..4] == [Word(0x0f78fcc4), Word(0x86f53154), Word(0x18fbf095), Word(0xe71c0675)]
    ensures Digest(w[..4]) == d == GRAPE_DIGEST[..16]
  {
    d := [];
    d := NextBytes(w, 0, d, 0x0f, 0x78, 0xfc, 0xc4);
    d := NextBytes(w, 1, d, 0x86, 0xf5, 0x31, 0x54);
    d := NextBytes(w, 2, d, 0x18, 0xfb, 0xf0, 0x95);
    d := NextBytes(w, 3, d, 0xe7, 0x1c, 0x06, 0x75);
  }

  lemma DigestIs(w: seq<Word>)
    requires w == [
               Word(0x0f78fcc4), Word(0x86f53154), Word(0x18fbf095), Word(0xe71c0675),
               Word(0xee07d318), Word(0xe5ac4d15), Word(0x0050cd8e), Word(0x57966496)]
    ensures Digest(w) == GRAPE_DIGEST
  {
    var d := FirstHalf(w);
    d := NextBytes(w, 4, d, 0xee, 0x07, 0xd3, 0x18);
    d := NextBytes(w, 5, d, 0xe5, 0xac, 0x4d, 0x15);
    d := NextBytes(w, 6, d, 0x00, 0x50, 0xcd, 0x8e);
    d := NextBytes(w, 7, d, 0x57, 0x96, 0x64, 0x96);
    assert w[..8] == w;
  }

  lemma OneBlock(message: seq<Byte>)
    requires |Pad(message)| == 64
    ensures Sha256(message) == Digest(WordsOf(Compress(H0, Pad(message))))
  {
    var padded := Pad(message);
    assert padded[0..64] == padded;
    assert Blocks(COMPRESSION, H0, padded, 1) == COMPRESSION(Blocks(COMPRESSION, H0, padded, 0), padded);
  }

  lemma LastSum(h: Eight, w: seq<Word>)
    requires h == H0
    requires StateIs(h, w, 64,
                     0xa56f165d, 0xcb8d82cf, 0xdc8cfd23, 0x41cc113b, 0x9cf98099, 0x4aa6e489, 0xe0ccf3e3, 0xfbb5977d)
    ensures Sum(h, Rounds(h, w, K, 64)) ==
            Eight(Word(0x0f78fcc4), Word(0x86f53154), Word(0x18fbf095), Word(0xe71c0675),
                  Word(0xee07d318), Word(0xe5ac4d15), Word(0x0050cd8e), Word(0x57966496))
  {
  }

  lemma Compressed(block: seq<Byte>)
    requires block == Pad(GRAPE) && |block| == 64
    ensures Compress(H0, block) ==
            Eight(Word(0x0f78fcc4), Word(0x86f53154), Word(0x18fbf095), Word(0xe71c0675),
                  Word(0xee07d318), Word(0xe5ac4d15), Word(0x0050cd8e), Word(0x57966496))
  {
    var w := AllRounds(block);
    LastSum(H0, w);
  }

  /** The hash of "grape". */
  lemma HashOfGrape()
    ensures Sha256(GRAPE) == GRAPE_DIGEST
  {
    PaddedGrape(0);
    OneBlock(GRAPE);
    Compressed(Pad(GRAPE));
    DigestIs(WordsOf(Compress(H0, Pad(GRAPE))));
  }

  /** The same from the streaming object. */
  method CheckGrape() returns (digest: array<Byte>)
    ensures digest[..] == GRAPE_DIGEST
  {
    digest := Hash(GRAPE);
    HashOfGrape();
    FitsBelowLimit(5);
  }
}
