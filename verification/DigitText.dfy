/** Reading and writing a single digit as text in a base (cpp/lib/bign/BigDigit.h). */
module DigitText {
  import opened Masks
  import opened NumberTheory
  import opened Limbs

  /** std::string::find: the first position of c, or the length when there is none. */
  function Find(map_: string, c: char): (i: nat)
    ensures i <= |map_| && (i < |map_| ==> map_[i] == c) && forall j | 0 <= j < i :: map_[j] != c
  {
    if map_ == "" then 0 else if map_[0] == c then 0 else 1 + Find(map_[1..], c)
  }

  /** Spaces apart, every character is one of the first `base` of the map. */
  ghost predicate Legal(s: string, base: nat, map_: string) {
    forall i | 0 <= i < |s| :: s[i] == ' ' || Find(map_, s[i]) < base
  }

  /** The number a text stands for, of any size. */
  function TextValue(s: string, base: nat, map_: string): nat {
    if s == "" then 0 else
    var n := |s| - 1;
    if s[n] == ' ' then TextValue(s[..n], base, map_) else TextValue(s[..n], base, map_) * base + Find(map_, s[n])
  }

  lemma GrowsBy(v: nat, base: nat, d: nat)
    requires base > 1
    ensures v * base + d >= v
  {
    NonNegativeProduct(v, base - 1);
    assert v * base == v * (base - 1) + v;
  }

  lemma {:induction false} PrefixIsLess(s: string, t: string, base: nat, map_: string)
    requires s <= t && base > 1
    ensures TextValue(s, base, map_) <= TextValue(t, base, map_)
    decreases |t|
  {
    if |s| < |t| {
      var n := |t| - 1;
      assert s <= t[..n];
      PrefixIsLess(s, t[..n], base, map_);
      GrowsBy(TextValue(t[..n], base, map_), base, Find(map_, t[n]));
    } else {
      assert s == t;
    }
  }

  // ----- Overflow -----

  function Join(pieces: seq<string>): string {
    if pieces == [] then "" else pieces[0] + Join(pieces[1..])
  }

  /** A text cut where its number outgrows a digit: every piece fits in one, and would not with the next character,
      which is not a space. */
  ghost predicate CutInto(s: string, pieces: seq<string>, base: nat, map_: string) {
    && pieces != [] && Join(pieces) == s
    && (forall j | 0 <= j < |pieces| :: TextValue(pieces[j], base, map_) < B)
    && forall j | 0 < j < |pieces| :: Breaks(pieces[j - 1], pieces[j], base, map_)
  }

  ghost predicate Breaks(piece: string, next: string, base: nat, map_: string) {
    next != "" && next[0] != ' ' && TextValue(piece + next[..1], base, map_) >= B
  }

  /** The numbers of the pieces, in order. */
  ghost predicate Numbers(pieces: seq<string>, values: seq<Digit>, base: nat, map_: string) {
    |pieces| == |values| && forall j | 0 <= j < |pieces| :: values[j] == TextValue(pieces[j], base, map_)
  }

  lemma {:induction false} JoinAppend(pieces: seq<string>, piece: string)
    ensures Join(pieces + [piece]) == Join(pieces) + piece
    decreases |pieces|
  {
    if pieces == [] {
      assert ([] + [piece])[1..] == [] && Join([]) == "";
    } else {
      JoinAppend(pieces[1..], piece);
      assert (pieces + [piece])[1..] == pieces[1..] + [piece];
    }
  }

  /** A character that fits is added to the last piece. */
  lemma LastGrows(s: string, pieces: seq<string>, values: seq<Digit>, c: char, v: Digit, base: nat, map_: string)
    requires base > 1 && CutInto(s, pieces, base, map_) && Numbers(pieces, values, base, map_)
    requires v == TextValue(pieces[|pieces| - 1] + [c], base, map_)
    ensures var n := |pieces| - 1; var grown := pieces[..n] + [pieces[n] + [c]];
            CutInto(s + [c], grown, base, map_) && Numbers(grown, values[..n] + [v], base, map_)
  {
    var n := |pieces| - 1;
    var last := pieces[n] + [c];
    assert pieces == pieces[..n] + [pieces[n]];
    JoinAppend(pieces[..n], pieces[n]);
    JoinAppend(pieces[..n], last);
    if n > 0 {
      assert Breaks(pieces[n - 1], pieces[n], base, map_);
      assert last[..1] == pieces[n][..1];
    }
  }

  /** A character that does not fit begins a piece. */
  lemma PieceBegins(s: string, pieces: seq<string>, values: seq<Digit>, c: char, v: Digit, base: nat, map_: string)
    requires base > 1 && CutInto(s, pieces, base, map_) && Numbers(pieces, values, base, map_) && c != ' '
    requires TextValue(pieces[|pieces| - 1] + [c], base, map_) >= B && v == TextValue([c], base, map_)
    ensures CutInto(s + [c], pieces + [[c]], base, map_) && Numbers(pieces + [[c]], values + [v], base, map_)
  {
    JoinAppend(pieces, [c]);
    assert [c][..1] == [c];
  }

  /** What follows the first piece is cut in the same way, if there is anything. */
  lemma CutRest(s: string, p: seq<string>, base: nat, map_: string)
    requires CutInto(s, p, base, map_)
    ensures s[..|p[0]|] == p[0] && s[|p[0]|..] == Join(p[1..])
    ensures if |p| > 1 then s[|p[0]|..] != "" && CutInto(s[|p[0]|..], p[1..], base, map_) else s[|p[0]|..] == ""
  {
    if |p| > 1 {
      assert Breaks(p[0], p[1], base, map_);
      assert Join(p[1..]) == p[1] + Join(p[1..][1..]);
      forall j | 0 < j < |p[1..]| ensures Breaks(p[1..][j - 1], p[1..][j], base, map_) {
        assert Breaks(p[j], p[j + 1], base, map_);
      }
    }
  }

  /** The first piece of one cut does not end before that of another. */
  lemma NotShorter(s: string, p: seq<string>, q: seq<string>, base: nat, map_: string)
    requires base > 1 && CutInto(s, p, base, map_) && CutInto(s, q, base, map_)
    ensures |p[0]| >= |q[0]|
  {
    CutRest(s, p, base, map_);
    CutRest(s, q, base, map_);
    if |p[0]| < |q[0]| {
      var longer := p[0] + p[1][..1];
      assert Breaks(p[0], p[1], base, map_);
      assert s[|p[0]|..] == p[1] + Join(p[1..][1..]);
      assert longer == s[..|longer|] == q[0][..|longer|];
      PrefixIsLess(longer, q[0], base, map_);
    }
  }

  /** There is one way to cut a text like that. */
  lemma {:induction false} CutIsUnique(s: string, p: seq<string>, q: seq<string>, base: nat, map_: string)
    requires base > 1 && CutInto(s, p, base, map_) && CutInto(s, q, base, map_)
    ensures p == q
    decreases |p|
  {
    NotShorter(s, p, q, base, map_);
    NotShorter(s, q, p, base, map_);
    assert p[0] == s[..|p[0]|] == q[0];
    CutRest(s, p, base, map_);
    CutRest(s, q, base, map_);
    if |p| > 1 { CutIsUnique(s[|p[0]|..], p[1..], q[1..], base, map_); }
    assert p == [p[0]] + p[1..] && q == [q[0]] + q[1..];
  }

  /** A text whose number fits in a digit is not cut. */
  lemma OnePieceIff(s: string, p: seq<string>, base: nat, map_: string)
    requires base > 1 && CutInto(s, p, base, map_)
    ensures |p| == 1 <==> TextValue(s, base, map_) < B
    ensures |p| == 1 ==> p == [s]
  {
    if |p| == 1 {
      assert p[1..] == [] && Join(p[1..]) == "";
    } else {
      CutRest(s, p, base, map_);
      var longer := p[0] + p[1][..1];
      assert Breaks(p[0], p[1], base, map_);
      assert s[|p[0]|..] == p[1] + Join(p[1..][1..]);
      assert longer == s[..|longer|];
      PrefixIsLess(longer, s, base, map_);
    }
  }

  /** These are the numbers of the pieces into which the text is cut, in order. */
  ghost predicate IsRead(s: string, values: seq<Digit>, base: nat, map_: string) {
    exists pieces :: CutInto(s, pieces, base, map_) && Numbers(pieces, values, base, map_)
  }

  lemma SpaceIsRead(s: string, values: seq<Digit>, base: nat, map_: string)
    requires base > 1 && IsRead(s, values, base, map_)
    ensures IsRead(s + [' '], values, base, map_)
  {
    var pieces :| CutInto(s, pieces, base, map_) && Numbers(pieces, values, base, map_);
    var n := |pieces| - 1;
    assert (pieces[n] + [' '])[..|pieces[n]|] == pieces[n];
    LastGrows(s, pieces, values, ' ', values[n], base, map_);
    assert values[..n] + [values[n]] == values;
  }

  /** The value of one digit more. */
  function WithDigit(v: nat, base: nat, d: nat): nat {
    v * base + d
  }

  lemma ValueWithDigit(s: string, c: char, base: nat, map_: string)
    requires c != ' '
    ensures TextValue(s + [c], base, map_) == WithDigit(TextValue(s, base, map_), base, Find(map_, c))
  {
    assert (s + [c])[..|s|] == s;
  }

  lemma CharacterFits(s: string, spilled: seq<Digit>, v: Digit, c: char, sum: Digit, base: nat, map_: string)
    requires base > 1 && IsRead(s, spilled + [v], base, map_) && c != ' ' && sum == WithDigit(v, base, Find(map_, c))
    ensures IsRead(s + [c], spilled + [sum], base, map_)
  {
    var values := spilled + [v];
    var pieces :| CutInto(s, pieces, base, map_) && Numbers(pieces, values, base, map_);
    ValueWithDigit(pieces[|pieces| - 1], c, base, map_);
    LastGrows(s, pieces, values, c, sum, base, map_);
    assert values[..|values| - 1] == spilled;
  }

  lemma CharacterOverflows(s: string, spilled: seq<Digit>, v: Digit, c: char, d: Digit, base: nat, map_: string)
    requires base > 1 && IsRead(s, spilled + [v], base, map_) && c != ' ' && d == Find(map_, c)
    requires WithDigit(v, base, d) >= B
    ensures IsRead(s + [c], spilled + [v] + [d], base, map_)
  {
    var values := spilled + [v];
    var pieces :| CutInto(s, pieces, base, map_) && Numbers(pieces, values, base, map_);
    ValueWithDigit(pieces[|pieces| - 1], c, base, map_);
    OneCharacter(c, base, map_);
    PieceBegins(s, pieces, values, c, d, base, map_);
  }

  /** v * base + d with the overflow checks of both operators. */
  method Append(v: Digit, base: nat, d: nat) returns (sum: Digit, fits: bool)
    requires base < B && d < B
    ensures fits <==> WithDigit(v, base, d) < B
    ensures fits ==> sum == WithDigit(v, base, d)
  {
    var (product, over) := DigitMul(v, base);
    if over != 0 { return 0, false; }
    var (low, over') := DigitAdd(product, d);
    return low, over' == 0;
  }

  lemma ReadWhole(s: string, spilled: seq<Digit>, v: Digit, base: nat, map_: string)
    requires base > 1 && IsRead(s, spilled + [v], base, map_)
    ensures spilled == [] <==> TextValue(s, base, map_) < B
    ensures spilled == [] ==> v == TextValue(s, base, map_)
  {
    var pieces :| CutInto(s, pieces, base, map_) && Numbers(pieces, spilled + [v], base, map_);
    OnePieceIff(s, pieces, base, map_);
  }

  /** The string constructor.  `spilled` holds the values handed to the overflow callback, in order, for a callback that
      returns; ok is false when the assertion on characters fails.  The callback fires exactly when the number of the
      text does not fit in a digit; with the result, it gets the numbers of the pieces into which the text is cut. */
  method Parse(s: string, base: nat, map_: string) returns (v: Digit, spilled: seq<Digit>, ok: bool)
    requires 1 < base <= |map_| && base < B
    ensures ok <==> Legal(s, base, map_)
    ensures ok ==> (spilled == [] <==> TextValue(s, base, map_) < B)
    ensures ok && spilled == [] ==> v == TextValue(s, base, map_)
    ensures ok ==> IsRead(s, spilled + [v], base, map_)
  {
    v, spilled := 0, [];
    var i := 0;
    assert CutInto("", [""], base, map_) && Numbers([""], [0], base, map_);
    while i < |s|
      invariant 0 <= i <= |s| && Legal(s[..i], base, map_) && IsRead(s[..i], spilled + [v], base, map_)
    {
      assert s[..i + 1] == s[..i] + [s[i]];
      if s[i] == ' ' {
        SpaceIsRead(s[..i], spilled + [v], base, map_);
      } else {
        var d := Find(map_, s[i]);
        if d == |map_| || d >= base { return v, spilled, false; }
        var sum, fits := Append(v, base, d);
        if !fits {
          CharacterOverflows(s[..i], spilled, v, s[i], d, base, map_);
          spilled := spilled + [v];
          v := d;
        } else {
          CharacterFits(s[..i], spilled, v, s[i], sum, base, map_);
          v := sum;
        }
      }
      i := i + 1;
    }
    assert s[..|s|] == s;
    ReadWhole(s, spilled, v, base, map_);
    return v, spilled, true;
  }

  function Reversed(s: string): (r: string)
    ensures |r| == |s|
  {
    if s == "" then "" else Reversed(s[1..]) + [s[0]]
  }

  /** The shortest text of a number: no spaces, and no leading zero unless it is the number zero. */
  ghost predicate Canonical(s: string, base: nat, map_: string) {
    && |s| >= 1 && (forall i | 0 <= i < |s| :: s[i] != ' ' && Find(map_, s[i]) < base)
    && (|s| > 1 ==> Find(map_, s[0]) != 0)
  }

  /** The first `base` characters of the map are distinct and none is a space. */
  ghost predicate GoodMap(base: nat, map_: string) {
    && base <= |map_|
    && (forall i | 0 <= i < base :: map_[i] != ' ')
    && (forall i, j | 0 <= i < j < base :: map_[i] != map_[j])
  }

  lemma FindOwn(base: nat, map_: string, i: nat)
    requires GoodMap(base, map_) && i < base
    ensures Find(map_, map_[i]) == i
  {
    var f := Find(map_, map_[i]);
    assert f <= i;
  }

  lemma {:induction false} ReversedAppend(s: string, c: char)
    ensures Reversed(s + [c]) == [c] + Reversed(s)
    decreases |s|
  {
    if s == "" {
      assert "" + [c] == [c];
    } else {
      ReversedAppend(s[1..], c);
      assert (s + [c])[1..] == s[1..] + [c];
    }
  }

  /** v / base, by repeated subtraction: `Spell` unfolds it many times, and a division by a variable does not unfold
      well.  `DivisionAgrees` ties both functions to the operators that `Format` uses. */
  function Quotient(v: nat, base: nat): (q: nat)
    requires base > 0
    ensures v < base ==> q == 0
    ensures v >= base > 1 ==> 0 < q < v
  {
    if v < base then 0 else 1 + Quotient(v - base, base)
  }

  function Remainder(v: nat, base: nat): (r: nat)
    requires base > 0
    ensures r < base && (v < base ==> r == v)
  {
    if v < base then v else Remainder(v - base, base)
  }

  lemma {:induction false} DivisionAgrees(v: nat, base: nat)
    requires base > 0
    ensures v == Quotient(v, base) * base + Remainder(v, base)
    ensures v / base == Quotient(v, base) && v % base == Remainder(v, base)
    decreases v
  {
    var q, r := Quotient(v, base), Remainder(v, base);
    if v >= base {
      DivisionAgrees(v - base, base);
      assert q * base == (q - 1) * base + base;
    }
    ModuloUnique(v, base, q, r);
  }

  /** The digits of a number, most significant first, as characters of the map. */
  function Spell(v: nat, base: nat, map_: string): (s: string)
    requires 1 < base <= |map_|
    ensures |s| >= 1
  {
    if v < base then [map_[v]] else Spell(Quotient(v, base), base, map_) + [map_[Remainder(v, base)]]
  }

  /** The text of a digit: least significant character first, then reversed. */
  method Format(value: Digit, base: nat, map_: string) returns (s: string)
    requires 1 < base <= |map_|
    ensures s == Spell(value, base, map_)
  {
    if value == 0 { return [map_[0]]; }
    s := "";
    var v: nat := value;
    assert Reversed(s) == "";
    while v != 0
      invariant Spell(value, base, map_) == (if v == 0 then "" else Spell(v, base, map_)) + Reversed(s)
    {
      DivisionAgrees(v, base);
      SpellStep(v, base, map_, s);
      s := s + [map_[v % base]];
      v := v / base;
    }
    s := Reversed(s);
  }

  lemma AppendMoves(t: string, c: char, s: string)
    ensures (t + [c]) + Reversed(s) == t + Reversed(s + [c])
  {
    ReversedAppend(s, c);
    assert (t + [c]) + Reversed(s) == t + ([c] + Reversed(s));
  }

  /** Moving the last digit of what is left to the end of what is written. */
  lemma SpellStep(v: nat, base: nat, map_: string, s: string)
    requires 1 < base <= |map_| && v > 0
    ensures Quotient(v, base) < v
    ensures Spell(v, base, map_) + Reversed(s) ==
            (if v < base then "" else Spell(Quotient(v, base), base, map_)) + Reversed(s + [map_[Remainder(v, base)]])
  {
    var c := map_[Remainder(v, base)];
    var t := if v < base then "" else Spell(Quotient(v, base), base, map_);
    assert Spell(v, base, map_) == t + [c];
    AppendMoves(t, c, s);
  }

  /** Over a good map the text of a number is its shortest one. */
  lemma {:induction false} SpellReadsBack(v: nat, base: nat, map_: string)
    requires base > 1 && GoodMap(base, map_)
    ensures TextValue(Spell(v, base, map_), base, map_) == v && Canonical(Spell(v, base, map_), base, map_)
    ensures v > 0 ==> Find(map_, Spell(v, base, map_)[0]) != 0
    decreases v
  {
    var q, r := Quotient(v, base), Remainder(v, base);
    FindOwn(base, map_, r);
    if v < base {
      OneCharacter(map_[v], base, map_);
    } else {
      var s := Spell(q, base, map_);
      SpellReadsBack(q, base, map_);
      assert (s + [map_[r]])[..|s|] == s;
      DivisionAgrees(v, base);
    }
  }

  /** Reading back what format writes works for every value of a digit exactly when the map is good. */
  lemma RoundTripIffGoodMap(base: nat, map_: string)
    requires 1 < base <= |map_| && base < B
    ensures (forall v: Digit :: TextValue(Spell(v, base, map_), base, map_) == v) <==> GoodMap(base, map_)
  {
    if GoodMap(base, map_) {
      forall v: Digit ensures TextValue(Spell(v, base, map_), base, map_) == v {
        SpellReadsBack(v, base, map_);
      }
    } else {
      var v := Misread(base, map_);
      var bad: Digit := v;
      assert TextValue(Spell(bad, base, map_), base, map_) != bad;
    }
  }

  lemma OneCharacter(c: char, base: nat, map_: string)
    ensures TextValue([c], base, map_) == if c == ' ' then 0 else Find(map_, c)
  {
    assert [c][..0] == "";
  }

  /** A number that a bad map misreads. */
  lemma Misread(base: nat, map_: string) returns (v: nat)
    requires 1 < base <= |map_| && !GoodMap(base, map_)
    ensures v <= base && TextValue(Spell(v, base, map_), base, map_) != v
  {
    if i :| 0 < i < base && map_[i] == ' ' {
      OneCharacter(' ', base, map_);
      return i;
    }
    if map_[0] == ' ' {
      assert Quotient(base, base) == 1 && Remainder(base, base) == 0;
      OneCharacter(map_[1], base, map_);
      assert Spell(base, base, map_)[..1] == [map_[1]];
      return base;
    }
    var i, j :| 0 <= i < j < base && map_[i] == map_[j];
    OneCharacter(map_[j], base, map_);
    return j;
  }

  /** What format writes, the constructor reads back, without overflow. */
  method RoundTrip(value: Digit, base: nat, map_: string) returns (v: Digit, spilled: seq<Digit>, ok: bool)
    requires 1 < base < B && GoodMap(base, map_)
    ensures ok && spilled == [] && v == value
  {
    var s := Format(value, base, map_);
    SpellReadsBack(value, base, map_);
    v, spilled, ok := Parse(s, base, map_);
  }

  lemma {:induction false} CanonicalAtLeast(s: string, base: nat, map_: string)
    requires base > 1 && |s| > 0 && (forall i | 0 <= i < |s| :: s[i] != ' ') && Find(map_, s[0]) != 0
    ensures TextValue(s, base, map_) > 0
    decreases |s|
  {
    var n := |s| - 1;
    if n > 0 {
      CanonicalAtLeast(s[..n], base, map_);
      GrowsBy(TextValue(s[..n], base, map_), base, Find(map_, s[n]));
    }
  }

  /** A shortest text without its last character is a shortest text again, or it was a single character. */
  lemma CanonicalInit(s: string, base: nat, map_: string)
    requires base > 1 && Canonical(s, base, map_)
    ensures var m, v := |s| - 1, TextValue(s[..|s| - 1], base, map_);
            && TextValue(s, base, map_) == v * base + Find(map_, s[m]) && Find(map_, s[m]) < base
            && (if m > 0 then v > 0 && Canonical(s[..m], base, map_) else v == 0)
  {
    if |s| > 1 { CanonicalAtLeast(s[..|s| - 1], base, map_); }
  }

  /** A number has one shortest text. */
  lemma {:induction false} CanonicalIsUnique(s: string, t: string, base: nat, map_: string)
    requires 1 < base <= |map_| && Canonical(s, base, map_) && Canonical(t, base, map_)
    requires TextValue(s, base, map_) == TextValue(t, base, map_)
    ensures s == t
    decreases |s|
  {
    var m, n := |s| - 1, |t| - 1;
    CanonicalInit(s, base, map_);
    CanonicalInit(t, base, map_);
    SameDigits(TextValue(s[..m], base, map_), TextValue(t[..n], base, map_), base, Find(map_, s[m]), Find(map_, t[n]));
    assert s[m] == t[n];
    if m > 0 { CanonicalIsUnique(s[..m], t[..n], base, map_); }
    assert s == s[..m] + [s[m]] && t == t[..n] + [t[n]];
  }

  /** What the constructor reads, format writes back unchanged, exactly when the text is the shortest one. */
  lemma WrittenBackIffCanonical(s: string, base: nat, map_: string)
    requires base > 1 && GoodMap(base, map_)
    ensures Spell(TextValue(s, base, map_), base, map_) == s <==> Canonical(s, base, map_)
  {
    var v := TextValue(s, base, map_);
    SpellReadsBack(v, base, map_);
    if Canonical(s, base, map_) { CanonicalIsUnique(Spell(v, base, map_), s, base, map_); }
  }

  lemma SameDigits(u: nat, v: nat, base: nat, c: nat, d: nat)
    requires base > 1 && c < base && d < base && u * base + c == v * base + d
    ensures u == v && c == d
  {
    ModuloUnique(u * base + c, base, u, c);
    ModuloUnique(v * base + d, base, v, d);
  }
}
