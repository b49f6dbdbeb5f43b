/**
 Truncation from words narrower than int.  There the operands of a difference or a shift are
 promoted to int first: the range test never holds, and a left shift loses no bits.
 */
module FloatPromote {
  import opened Bits
  import opened FloatFormat
  import opened FloatRound
  import opened FloatTruncate

  /** The width of int. */
  const INT_BITS: nat := 32

  /** The significand with a leading one, whether or not the number has it. */
  function Significand(src: Format, a: nat): nat {
    Pow2(src.sig) + Low(a, src.sig)
  }

  /** How far the last branch of the truncation shifts to the right. */
  function Shift(src: Format, dst: Format, a: nat): int
    requires Comparable(src, dst)
  {
    BiasDiff(src, dst) - Shr(a, src.sig) + 1
  }

  /** In words narrower than int, the code is undefined for numbers that it shifts by a negative
      amount, and if the sticky test overflows an int. */
  predicate Defined(src: Format, dst: Format, a: nat)
    requires Comparable(src, dst)
  {
    || src.bits >= INT_BITS || a >= Overflow(src, dst)
    || (0 <= Shift(src, dst, a) && (Shift(src, dst, a) <= src.sig ==>
          Significand(src, a) * Pow2(src.bits - Shift(src, dst, a)) < Pow2(INT_BITS - 1)))
  }

  /** Half way between two multiples of 2^w, the lower one of which is even. */
  predicate TieDown(m: nat, w: nat)
    requires w >= 1
  {
    Low(m, w) == Pow2(w - 1) && Shr(m, w) % 2 == 0
  }

  /** A tie that should be rounded down, in a word narrower than int. */
  predicate RaisesTie(src: Format, dst: Format, a: nat)
    requires Comparable(src, dst)
  {
    && src.bits < INT_BITS && a < Overflow(src, dst) && 0 <= Shift(src, dst, a)
    && TieDown(Significand(src, a), Shift(src, dst, a) + Dropped(src, dst))
  }

  /** What the code makes of a pattern without its sign, where it is defined. */
  ghost function WordAbs(src: Format, dst: Format, a: nat): int
    requires Comparable(src, dst)
  {
    TruncAbs(src, dst, a) + (if RaisesTie(src, dst, a) then 1 else 0)
  }

  /** Right shift with the lowest bit always set. */
  function OddShift(m: nat, shift: nat): nat {
    var q := Shr(m, shift);
    if q % 2 == 0 then q + 1 else q
  }

  /** With the sticky bit always set, ties are rounded up. */
  lemma OddRounds(m: nat, shift: nat, d: nat)
    requires d >= 2
    ensures RoundAt(OddShift(m, shift), d) == RoundAt(m, shift + d) + (if TieDown(m, shift + d) then 1 else 0)
  {
    hide Pow2; hide Low; hide Shr; hide RoundAt;
    StickyRounds(m, shift, d);
    SplitTwice(m, shift, d);
    HalfPowers(shift, d);
    var q := Shr(m, shift);
    StickyCompare(Low(q, d), Pow2(d - 1), Pow2(shift), Low(m, shift));
    LowOfEven(q, d);
    if Low(m, shift) == 0 && q % 2 == 0 {
      OddRoundsExact(q, d);
      SameTie(Low(q, d), Pow2(d - 1), Pow2(shift));
    }
  }

  lemma SameTie(rem: nat, half: nat, p: nat)
    requires p > 0
    ensures rem * p == half * p <==> rem == half
  {
    SameOrder(rem, half, p);
  }

  lemma LowOfEven(q: nat, d: nat)
    requires d >= 2
    ensures Low(q, d) % 2 == q % 2
    ensures Pow2(d - 1) % 2 == 0
  {
    HalfPowers(0, d);
    hide Pow2; hide Low; hide Shr;
    Fields(q, d);
    EvenShift(Shr(q, d), d, Low(q, d));
  }

  lemma OddRoundsExact(q: nat, d: nat)
    requires d >= 2 && q % 2 == 0
    ensures RoundAt(q + 1, d) == RoundAt(q, d) + (if TieDown(q, d) then 1 else 0)
  {
    HalfPowers(0, d);
    LowOfEven(q, d);
    hide Pow2; hide Low; hide Shr;
    Fields(q, d);
    StickyParts(q, Shr(q, d), Low(q, d), d, Pow2(d - 1));
  }

  // ----- the last branch, which numbers up to the smallest exponent of the target reach

  lemma SignificandFits(src: Format, a: nat)
    ensures Pow2(src.sig) <= Significand(src, a) < Pow2(src.sig + 1)
  {
    assert Pow2(src.sig + 1) == 2 * Pow2(src.sig);
    hide Pow2; hide Low;
  }

  /** In the smallest normal exponent, shifting by nothing and rebiasing come to the same. */
  lemma FirstExponent(src: Format, dst: Format, a: nat)
    requires Comparable(src, dst) && Shift(src, dst, a) == 0
    ensures TruncAbs(src, dst, a) == RoundAt(Significand(src, a), Dropped(src, dst))
  {
    hide Pow2; hide Low; hide Shr; hide BiasDiff; hide Rebiased; hide SmallResult;
    InfIsLarge(dst);
    BelowUnderflow(src, dst, a);
    BelowOverflow(src, dst, a);
    hide Underflow; hide Overflow;
    NormalPattern(src, dst, a);
    assert 1 * Pow2(dst.sig) == Pow2(dst.sig);
  }

  /** Every number that the last branch can take is rounded as if it had a leading one. */
  lemma ShiftRounds(src: Format, dst: Format, a: nat)
    requires Comparable(src, dst) && 0 <= Shift(src, dst, a)
    ensures a < Overflow(src, dst)
    ensures TruncAbs(src, dst, a) == RoundAt(Significand(src, a), Shift(src, dst, a) + Dropped(src, dst))
    ensures Shift(src, dst, a) > src.sig ==> TruncAbs(src, dst, a) == 0
    ensures Shift(src, dst, a) > src.sig ==> !TieDown(Significand(src, a), Shift(src, dst, a) + Dropped(src, dst))
  {
    hide Pow2; hide Low; hide Shr; hide BiasDiff; hide Rebiased; hide RoundAt; hide StickyShift;
    InfIsLarge(dst);
    RangesOrdered(src, dst);
    BelowUnderflow(src, dst, a);
    BelowOverflow(src, dst, a);
    hide Underflow; hide Overflow;
    var m, shift, d := Significand(src, a), Shift(src, dst, a), Dropped(src, dst);
    SignificandFits(src, a);
    if shift == 0 {
      FirstExponent(src, dst, a);
    } else if shift <= src.sig {
      StickyRounds(m, shift, d);
    } else {
      Pow2Mono(src.sig + 1, shift + d - 1);
      RoundsToZero(m, shift + d);
      NoTie(m, shift + d);
    }
  }

  lemma NoTie(m: nat, w: nat)
    requires w >= 1 && m < Pow2(w - 1)
    ensures !TieDown(m, w)
  {
    Doubles(w);
    hide Pow2;
    MakeFields(0, m, w);
  }

  /** The raised result is still a number of the target format. */
  lemma RaisedFits(src: Format, dst: Format, a: nat)
    requires Comparable(src, dst) && RaisesTie(src, dst, a)
    ensures 0 <= TruncAbs(src, dst, a) < 2 * Pow2(dst.sig) <= dst.Inf()
  {
    hide Pow2; hide Low; hide Shr; hide BiasDiff; hide TruncAbs; hide Overflow; hide Significand; hide Shift;
    ShiftRounds(src, dst, a);
    SignificandFits(src, a);
    SignificandBound(Significand(src, a), src.sig, Shift(src, dst, a) + Dropped(src, dst), dst.sig + 1);
    Doubles(dst.sig + 1);
    InfIsLarge(dst);
    MulMono(2, dst.InfExp(), Pow2(dst.sig));
  }

  // ----- the promise

  /** A misread number is never rounded to less than it should be. */
  lemma MisreadLarger(src: Format, dst: Format, a: nat)
    requires Comparable(src, dst) && Shr(a, src.sig) == 0
    ensures RoundAt(Low(a, src.sig), Scale(src, dst)) <= TruncAbs(src, dst, a)
  {
    hide Pow2; hide Low; hide BiasDiff; hide TruncAbs; hide RoundAt; hide Overflow;
    assert Low(a, src.sig) < Pow2(src.sig);
    hide Shr;
    var f := Low(a, src.sig);
    ShiftRounds(src, dst, a);
    Double(f);
    RoundScaled(f, 1, Scale(src, dst));
    RoundMono(2 * f, Significand(src, a), Scale(src, dst) + 1);
  }

  lemma Double(f: nat)
    ensures f * Pow2(1) == 2 * f
  {
    Pow2Values();
  }

  /** A tie that is raised is never right. */
  lemma RaisedWrong(src: Format, dst: Format, a: nat)
    requires Comparable(src, dst) && RaisesTie(src, dst, a)
    ensures !Truncated(src, dst, a, WordAbs(src, dst, a))
  {
    hide NearestEven; hide Mag; hide Pow2; hide Shr; hide Low; hide Harmless; hide RoundAt; hide TruncAbs; hide TieDown;
    hide BiasDiff; hide Overflow; hide Shift; hide Significand;
    RangesOrdered(src, dst);
    RaisedFits(src, dst, a);
    PromiseExactly(src, dst, a);
    var r := TruncAbs(src, dst, a);
    if NearestEven(src, dst, Mag(src, a), r + 1) {
      if Shr(a, src.sig) == 0 {
        SubnormalNearest(src, dst, a);
        MisreadLarger(src, dst, a);
        NearestUnique(src, dst, Mag(src, a), r + 1, RoundAt(Low(a, src.sig), Scale(src, dst)));
      } else {
        NearestUnique(src, dst, Mag(src, a), r + 1, r);
      }
    }
  }

  /** The exact condition for the promise in words of every width. */
  lemma WordExactly(src: Format, dst: Format, a: nat)
    requires Comparable(src, dst)
    ensures Truncated(src, dst, a, WordAbs(src, dst, a)) <==> Kept(src, dst, a) && !RaisesTie(src, dst, a)
  {
    hide Truncated; hide Kept; hide TruncAbs; hide RaisesTie; hide Pow2;
    PromiseExactly(src, dst, a);
    if RaisesTie(src, dst, a) {
      RaisedWrong(src, dst, a);
    }
  }

  /** In words of 8 or 16 bits the sticky test does not overflow, so that the code is defined
      exactly for NaNs, for numbers too large, and up to the smallest normal exponent of the
      target. */
  lemma DefinedExactly(src: Format, dst: Format, a: nat)
    requires Comparable(src, dst) && src.bits <= 16
    ensures Defined(src, dst, a) <==> a >= Overflow(src, dst) || Shr(a, src.sig) <= BiasDiff(src, dst) + 1
  {
    hide Pow2; hide Shr; hide Low; hide BiasDiff; hide Overflow; hide Significand;
    var m, shift := Significand(src, a), Shift(src, dst, a);
    if 0 <= shift <= src.sig {
      SignificandFits(src, a);
      Pow2Add(src.sig + 1, src.bits - shift);
      Pow2Mono(src.sig + 1 + (src.bits - shift), INT_BITS - 1);
      MulMono(m + 1, Pow2(src.sig + 1), Pow2(src.bits - shift));
      MulDist(m, 1, Pow2(src.bits - shift));
    }
  }

  /** Half precision to a format with the same exponents: 1 is undefined, and nine eighths of
      the smallest normal number is a tie that is raised from 4 to 5. */
  lemma HalfUndefined()
    ensures var src, dst := Format(16, 10), Format(8, 2);
            && Comparable(src, dst) && !Defined(src, dst, 0x3C00)
            && Defined(src, dst, 0x480) && RaisesTie(src, dst, 0x480)
            && TruncAbs(src, dst, 0x480) == 4 && WordAbs(src, dst, 0x480) == 5
            && !Truncated(src, dst, 0x480, 5)
  {
    var src, dst := Format(16, 10), Format(8, 2);
    HalfValues();
    hide Pow2; hide Shr; hide Low; hide Comparable; hide BiasDiff; hide Overflow; hide TruncAbs; hide RoundAt;
    hide Truncated;
    DefinedExactly(src, dst, 0x3C00);
    DefinedExactly(src, dst, 0x480);
    ShiftRounds(src, dst, 0x480);
    RaisedWrong(src, dst, 0x480);
  }

  lemma HalfValues()
    ensures var src, dst := Format(16, 10), Format(8, 2);
            && Comparable(src, dst) && BiasDiff(src, dst) == 0 && Overflow(src, dst) == 0x7C00
    ensures Shr(0x3C00, 10) == 15 && Shr(0x480, 10) == 1 && Low(0x480, 10) == 0x80
    ensures Pow2(10) == 0x400 && RoundAt(0x480, 8) == 4 && TieDown(0x480, 8)
  {
    Pow2Values();
    assert Pow2(10) == 0x400 && Pow2(8) == 256 && Pow2(7) == 128;
  }

  // ----- order

  /** Rounding to the nearest multiple, ties upwards. */
  function RoundUp(m: nat, w: nat): nat
    requires w >= 1
  {
    Shr(m + Pow2(w - 1), w)
  }

  lemma UpIsRaised(m: nat, w: nat)
    requires w >= 1
    ensures RoundUp(m, w) == RoundAt(m, w) + (if TieDown(m, w) then 1 else 0)
  {
    Doubles(w);
    hide Pow2; hide Shr; hide Low;
    Fields(m, w);
    var q, rem, half := Shr(m, w), Low(m, w), Pow2(w - 1);
    if rem >= half {
      MulDist(q, 1, Pow2(w));
      MakeFields(q + 1, rem - half, w);
    } else {
      MakeFields(q, rem + half, w);
    }
  }

  lemma ShrMono(x: nat, y: nat, w: nat)
    requires x <= y
    ensures Shr(x, w) <= Shr(y, w)
  {
    hide Pow2; hide Shr; hide Low;
    Fields(x, w);
    ShrCompare(y, Shr(x, w), w);
  }

  lemma UpScaled(m: nat, e: nat, w: nat)
    requires w >= 1
    ensures m * Pow2(e) >= 0 && RoundUp(m * Pow2(e), w + e) == RoundUp(m, w)
  {
    Pow2Add(w, e);
    Pow2Add(w - 1, e);
    hide Pow2; hide Shr; hide Low;
    var x, s := m + Pow2(w - 1), Pow2(e);
    MulMono(0, m, s);
    MulDist(m, Pow2(w - 1), s);
    Fields(x, w);
    var q, rem := Shr(x, w), Low(x, w);
    MulMono(0, rem, s);
    MulMono(rem + 1, Pow2(w), s);
    MulDist(rem, 1, s);
    MulDist(q * Pow2(w), rem, s);
    MulAssoc(q, Pow2(w), s);
    MakeFields(q, rem * s, w + e);
  }

  /** What the last branch computes in a word narrower than int. */
  lemma ShiftRoundsUp(src: Format, dst: Format, a: nat)
    requires Comparable(src, dst) && src.bits < INT_BITS && 0 <= Shift(src, dst, a)
    ensures WordAbs(src, dst, a) == RoundUp(Mag(src, a + Pow2(src.sig)), Scale(src, dst) + 1)
  {
    hide Pow2; hide Shr; hide Low; hide BiasDiff; hide TruncAbs; hide RoundAt; hide TieDown; hide RoundUp; hide Mag;
    hide Overflow;
    var m, e, w := Significand(src, a), Shr(a, src.sig), Shift(src, dst, a) + Dropped(src, dst);
    ShiftRounds(src, dst, a);
    UpIsRaised(m, w);
    NextExponent(src, a);
    UpScaled(m, e, w);
    assert w + e == Scale(src, dst) + 1;
  }

  /** Where the code is defined, it never swaps the order of two numbers. */
  lemma WordMonotone(src: Format, dst: Format, a: nat, b: nat)
    requires Comparable(src, dst) && a <= b <= src.Inf() && Defined(src, dst, a) && Defined(src, dst, b)
    ensures WordAbs(src, dst, a) <= WordAbs(src, dst, b)
  {
    hide Pow2; hide Shr; hide Low; hide BiasDiff; hide TruncAbs; hide TieDown; hide RoundUp; hide Mag;
    hide Overflow; hide Significand;
    AbsMonotone(src, dst, a, b);
    if src.bits < INT_BITS && a < Overflow(src, dst) {
      ShiftRoundsUp(src, dst, a);
      if b < Overflow(src, dst) {
        ShiftRoundsUp(src, dst, b);
        MagMono(src, a + Pow2(src.sig), b + Pow2(src.sig));
        UpMono(Mag(src, a + Pow2(src.sig)), Mag(src, b + Pow2(src.sig)), Scale(src, dst) + 1);
      } else {
        WordFits(src, dst, a);
        AboveOverflow(src, dst, b);
      }
    }
  }

  lemma UpMono(x: nat, y: nat, w: nat)
    requires w >= 1 && x <= y
    ensures RoundUp(x, w) <= RoundUp(y, w)
  {
    hide Pow2; hide Shr;
    ShrMono(x + Pow2(w - 1), y + Pow2(w - 1), w);
  }

  lemma AboveOverflow(src: Format, dst: Format, a: nat)
    requires Comparable(src, dst) && Overflow(src, dst) <= a <= src.Inf()
    ensures WordAbs(src, dst, a) == dst.Inf()
  {
    hide Pow2; hide Shr; hide Low; hide BiasDiff; hide SmallResult; hide Rebiased; hide RoundAt;
    RangesOrdered(src, dst);
    hide Overflow; hide Underflow;
  }

  /** A number becomes a number or infinity. */
  lemma WordFits(src: Format, dst: Format, a: nat)
    requires Comparable(src, dst) && a <= src.Inf()
    ensures 0 <= WordAbs(src, dst, a) <= dst.Inf()
  {
    hide TruncAbs; hide Pow2; hide RaisesTie;
    AbsMonotone(src, dst, 0, a);
    AbsMonotone(src, dst, a, src.Inf());
    AbsEnds(src, dst);
    if RaisesTie(src, dst, a) {
      RaisedFits(src, dst, a);
    }
  }

  lemma AbsEnds(src: Format, dst: Format)
    requires Comparable(src, dst)
    ensures TruncAbs(src, dst, 0) >= 0 && TruncAbs(src, dst, src.Inf()) == dst.Inf()
  {
    hide SmallResult; hide Pow2; hide Shr; hide Low;
    RangesOrdered(src, dst);
    hide Overflow;
    assert Underflow(src, dst) > 0 by { MulMono(1, BiasDiff(src, dst) + 1, Pow2(src.sig)); }
    InfIsLarge(src);
  }
}
