/**
 Extension followed by truncation: which patterns come back.
 */
module FloatRoundTrip {
  import opened Bits
  import opened FloatFormat
  import opened FloatRound
  import opened FloatTruncate
  import opened FloatPromote
  import opened FloatConvert
  import opened FloatExtend
  import opened Wrappers

  /** A NaN whose quiet bit is clear. */
  ghost predicate Signaling(f: Format, a: nat)
    requires f.Valid()
  {
    a > f.Inf() && Low(a, f.sig) < Pow2(f.sig - 1)
  }

  lemma NaNFields(f: Format, a: nat)
    requires f.Valid() && f.Inf() <= a < Pow2(f.bits - 1)
    ensures Low(a, f.sig) == a - f.Inf()
  {
    InfFits(f);
    hide Pow2;
    MakeFields(f.InfExp(), a - f.Inf(), f.sig);
  }

  /** The payload of an extended NaN. */
  lemma PayloadBack(p: nat, k: nat, d: nat, q: nat)
    requires k >= 1 && p < Pow2(k) && q == p * Pow2(d)
    ensures Shr(Low(q, k + d - 1), d) == Low(p, k - 1)
  {
    hide Pow2; hide Shr; hide Low;
    var l, h := Low(p, k - 1), Shr(p, k - 1);
    Fields(p, k - 1);
    var w := k - 1 + d;
    assert q == h * Pow2(w) + l * Pow2(d) && 0 <= l * Pow2(d) < Pow2(w) by { ExtendPattern(h, l, k - 1, d, 0); }
    assert Low(q, w) == l * Pow2(d) by { MakeFields(h, l * Pow2(d), w); }
    MakeFields(l, 0, d);
    assert l * Pow2(d) + 0 == l * Pow2(d);
  }

  lemma NaNRoundTrip(narrow: Format, wide: Format, a: nat, x: nat, r: nat)
    requires Comparable(wide, narrow) && narrow.Inf() < a < Pow2(narrow.bits - 1) && x < Pow2(wide.bits - 1)
    requires Extended(narrow, wide, a, x) && Truncated(wide, narrow, x, r)
    ensures r == narrow.Inf() + Pow2(narrow.sig - 1) + Low(Low(a, narrow.sig), narrow.sig - 1)
  {
    hide Pow2; hide Shr; hide Low; hide Mag; hide Target; hide NearestEven;
    var d, p := Dropped(wide, narrow), Low(a, narrow.sig);
    NaNFields(narrow, a);
    MulMono(1, p, Pow2(d));
    PayloadExtends(narrow, wide, a);
    InfFits(wide);
    NaNFields(wide, x);
    PayloadBack(p, narrow.sig, d, p * Pow2(d));
    LowOfLow(x, wide.sig);
  }

  lemma LowOfLow(x: nat, sig: nat)
    requires sig >= 1
    ensures Low(Low(x, sig), sig - 1) == Low(x, sig - 1)
  {
    Split(x, sig - 1, 1);
  }

  lemma QuietBit(p: nat, sig: nat)
    requires sig >= 1 && p < Pow2(sig)
    ensures Low(p, sig - 1) == if p < Pow2(sig - 1) then p else p - Pow2(sig - 1)
  {
    assert Pow2(sig) == 2 * Pow2(sig - 1);
    hide Pow2;
    if p >= Pow2(sig - 1) {
      MakeFields(1, p - Pow2(sig - 1), sig - 1);
    }
  }

  /** The patterns that come back: zero if the exponent range is narrower by at least the
      fraction (by more if the wide format is narrower than int), a subnormal number if it is at
      least half the smallest normal number of the wide format, every normal number, infinity, and
      every quiet NaN. */
  ghost predicate Returns(narrow: Format, wide: Format, a: nat)
    requires Comparable(wide, narrow)
  {
    if a == 0 then BiasDiff(wide, narrow) >= narrow.sig + (if wide.bits < INT_BITS then 1 else 0)
    else if a < Pow2(narrow.sig) then a * Pow2(BiasDiff(wide, narrow) + 1) >= Pow2(narrow.sig)
    else !Signaling(narrow, a)
  }

  /** A number that became a normal number of the wide format comes back. */
  lemma NormalReturns(narrow: Format, wide: Format, a: nat, x: nat)
    requires Comparable(wide, narrow) && a < narrow.Inf() && Shr(x, wide.sig) >= 1 && x < wide.Inf()
    requires Mag(wide, x) == Target(wide, narrow, a)
    ensures WordAbs(wide, narrow, x) == a
  {
    hide Mag; hide Target; hide NearestEven; hide TruncAbs; hide Shr; hide Low; hide Pow2; hide BiasDiff; hide Harmless;
    hide RaisesTie;
    PromiseExactly(wide, narrow, x);
    NearestExact(wide, narrow, a, TruncAbs(wide, narrow, x));
    ExactNoTie(narrow, wide, a, x);
  }

  /** A number of the narrow format is no tie. */
  lemma ExactNoTie(narrow: Format, wide: Format, a: nat, x: nat)
    requires Comparable(wide, narrow) && Shr(x, wide.sig) >= 1 && Mag(wide, x) == Target(wide, narrow, a)
    ensures !RaisesTie(wide, narrow, x)
  {
    hide Pow2; hide Shr; hide Low; hide BiasDiff; hide Overflow;
    if 0 <= Shift(wide, narrow, x) {
      var e, w := Shr(x, wide.sig), Shift(wide, narrow, x) + Dropped(wide, narrow);
      assert Scale(wide, narrow) == w + (e - 1);
      var m, k := Significand(wide, x), Mag(narrow, a);
      assert Mag(wide, x) == m * Pow2(e - 1);
      hide Mag; hide Significand;
      MultipleNoTie(m, k, w, e - 1);
    }
  }

  lemma MultipleNoTie(m: nat, k: nat, w: nat, s: nat)
    requires w >= 1 && m * Pow2(s) == k * Pow2(w + s)
    ensures !TieDown(m, w)
  {
    hide Pow2; hide Shr; hide Low;
    ShiftPowers(k, w, s);
    MulMono(0, k, Pow2(w));
    SameOrder(m, k * Pow2(w), Pow2(s));
    MakeFields(k, 0, w);
  }

  lemma NormalPatternReturns(narrow: Format, wide: Format, a: nat)
    requires Comparable(wide, narrow) && Pow2(narrow.sig) <= a < narrow.Inf()
    ensures ExtAbs(narrow, wide, a) >= 0 && WordAbs(wide, narrow, ExtAbs(narrow, wide, a)) == a
  {
    hide Mag; hide Target; hide WordAbs; hide Shr; hide Low; hide Pow2; hide BiasDiff;
    ExtendNormal(narrow, wide, a);
    var x := ExtAbs(narrow, wide, a);
    LargeField(narrow, wide, a);
    NormalReturns(narrow, wide, a, x);
  }

  lemma LargeField(narrow: Format, wide: Format, a: nat)
    requires Comparable(wide, narrow) && a >= Pow2(narrow.sig)
    ensures var x := a * Pow2(Dropped(wide, narrow)) + BiasDiff(wide, narrow) * Pow2(wide.sig);
            x >= 0 && Shr(x, wide.sig) >= 1
  {
    hide Shr; hide Pow2; hide BiasDiff;
    var d := Dropped(wide, narrow);
    Pow2Add(narrow.sig, d);
    MulMono(Pow2(narrow.sig), a, Pow2(d));
    MulMono(0, BiasDiff(wide, narrow), Pow2(wide.sig));
    ShrCompare(a * Pow2(d) + BiasDiff(wide, narrow) * Pow2(wide.sig), 1, wide.sig);
  }

  lemma SpecialReturns(narrow: Format, wide: Format, a: nat)
    requires Comparable(wide, narrow) && narrow.Inf() <= a < Pow2(narrow.bits - 1)
    ensures ExtAbs(narrow, wide, a) >= 0
    ensures var r := WordAbs(wide, narrow, ExtAbs(narrow, wide, a));
            if Signaling(narrow, a) then r == a + Pow2(narrow.sig - 1) else r == a
  {
    hide Mag; hide Target; hide NearestEven; hide TruncAbs; hide Shr; hide Low; hide Pow2; hide BiasDiff; hide Misread;
    hide Harmless;
    InfIsLarge(narrow);
    ExtendedSpecial(narrow, wide, a);
    var x := ExtAbs(narrow, wide, a);
    PromiseExactly(wide, narrow, x);
    InfNotMisread(wide, narrow, x);
    RangesOrdered(wide, narrow);
    hide Overflow;
    NaNFields(narrow, a);
    if a > narrow.Inf() {
      PayloadExtends(narrow, wide, a);
      MulMono(1, Low(a, narrow.sig), Pow2(Dropped(wide, narrow)));
      NaNRoundTrip(narrow, wide, a, x, TruncAbs(wide, narrow, x));
      QuietBit(Low(a, narrow.sig), narrow.sig);
    }
  }

  lemma InfNotMisread(wide: Format, narrow: Format, x: nat)
    requires Comparable(wide, narrow) && x >= wide.Inf()
    ensures !Misread(wide, narrow, x)
  {
    hide Shr; hide Pow2; hide BiasDiff;
    InfIsLarge(wide);
    ShrCompare(x, 1, wide.sig);
  }

  // ----- subnormal numbers

  /** A pattern of exponent field 0 comes back as if it had a leading one. */
  lemma FractionTruncated(narrow: Format, wide: Format, m: nat)
    requires Comparable(wide, narrow) && m < Pow2(wide.sig)
    ensures TruncAbs(wide, narrow, m) == RoundAt(Pow2(wide.sig) + m, Scale(wide, narrow) + 1)
  {
    hide Pow2; hide Shr; hide Low; hide SmallResult; hide RoundAt; hide Mag; hide BiasDiff;
    MakeFields(0, m, wide.sig);
    BelowUnderflow(wide, narrow, m);
    RangesOrdered(wide, narrow);
    SmallIsRound(wide, narrow, m);
    NextExponent(wide, m);
    TimesOne(Pow2(wide.sig) + m);
  }

  lemma TimesOne(x: nat)
    ensures x * Pow2(0) == x
  {
  }

  /** The fields of the pattern that a subnormal number becomes. */
  lemma TinyFields(narrow: Format, wide: Format, a: nat)
    requires Comparable(wide, narrow) && 0 < a < Pow2(narrow.sig)
    ensures TinyResult(narrow, wide, a) >= 0 && 0 <= Renormalized(narrow, wide, a) < Pow2(wide.sig)
    ensures var x := Low(TinyResult(narrow, wide, a), wide.bits - 1);
            && Low(x, wide.sig) == Renormalized(narrow, wide, a)
            && (ResultExponent(narrow, wide, a) == 0 ==> x == Renormalized(narrow, wide, a))
  {
    hide Pow2; hide Low; hide Shr; hide SubWrap; hide Renormalized; hide ResultExponent; hide BiasDiff;
    RenormalizedFits(narrow, wide, a);
    var m, q := Renormalized(narrow, wide, a), SubWrap(ResultExponent(narrow, wide, a), 0, wide.bits - wide.sig);
    MakeFields(q, m, wide.sig);
    LowOfLower(TinyResult(narrow, wide, a), wide.bits - 1, wide.sig);
    if ResultExponent(narrow, wide, a) == 0 {
      SubWrapIs(0, 0, wide.bits - wide.sig);
      Pow2Mono(wide.sig, wide.bits - 1);
    }
  }

  /** With the leading one put back, the significand is a multiple of the unit. */
  lemma LeadingOneBack(narrow: Format, wide: Format, a: nat)
    requires Comparable(wide, narrow) && 0 < a < Pow2(narrow.sig) && ResultExponent(narrow, wide, a) <= 0
    ensures var j := 0 - ResultExponent(narrow, wide, a);
            && Renormalized(narrow, wide, a) >= 0 && a * Pow2(j) >= 0
            && RoundAt(Pow2(wide.sig) + Renormalized(narrow, wide, a), Scale(wide, narrow) + 1) == a * Pow2(j)
            && !TieDown(Pow2(wide.sig) + Renormalized(narrow, wide, a), Scale(wide, narrow) + 1)
  {
    hide Pow2; hide RoundAt; hide BiasDiff; hide Lift; hide TieDown;
    RenormalizedFits(narrow, wide, a);
    var j, w := 0 - ResultExponent(narrow, wide, a), Scale(wide, narrow) + 1;
    assert Dropped(wide, narrow) + Lift(narrow, a) == j + w;
    ShiftPowers(a, j, w);
    MulMono(0, a, Pow2(j));
    RoundsExact(a * Pow2(j), w);
    TimesOne(Pow2(wide.sig) + Renormalized(narrow, wide, a));
    MultipleNoTie(Pow2(wide.sig) + Renormalized(narrow, wide, a), a * Pow2(j), w, 0);
  }

  /** A spoilt number that is not small comes back as a larger one. */
  lemma SpoiltLarger(narrow: Format, wide: Format, a: nat, x: nat)
    requires Comparable(wide, narrow) && 0 < a < Pow2(narrow.sig) && ResultExponent(narrow, wide, a) < 1
    requires Pow2(wide.sig) <= x < Pow2(wide.bits - 1)
    ensures TruncAbs(wide, narrow, x) > a
  {
    hide Mag; hide Target; hide NearestEven; hide TruncAbs; hide Shr; hide Low; hide Pow2; hide BiasDiff; hide Harmless;
    hide ResultExponent;
    PromiseExactly(wide, narrow, x);
    ShrCompare(x, 1, wide.sig);
    InfIsLarge(narrow);
    if x < wide.Inf() {
      var p := Threshold(narrow, wide, a);
      NearestSelf(wide, narrow, p);
      MagMono(wide, Pow2(wide.sig), x);
      NearestMono(wide, narrow, Target(wide, narrow, p), Mag(wide, x), p, TruncAbs(wide, narrow, x));
    }
  }

  /** The smallest normal number of the wide format is a number of the narrow one above a. */
  lemma Threshold(narrow: Format, wide: Format, a: nat) returns (p: nat)
    requires Comparable(wide, narrow) && 0 < a < Pow2(narrow.sig) && ResultExponent(narrow, wide, a) < 1
    ensures a < p <= Pow2(narrow.sig) && Target(wide, narrow, p) == Mag(wide, Pow2(wide.sig))
  {
    var b := BiasDiff(wide, narrow);
    hide Pow2; hide BiasDiff; hide Mag; hide Lift; hide Target;
    RenormalizesExactly(narrow, wide, a);
    hide ResultExponent;
    p := Pow2(narrow.sig - b);
    Pow2Add(narrow.sig - b, b);
    Pow2Mono(narrow.sig - b, narrow.sig);
    if a >= p { MulMono(p, a, Pow2(b)); }
    MagPower(wide, 1);
    OneUnit(wide.sig);
    TargetUpTo(narrow, wide, p);
    Pow2Add(narrow.sig - b, Scale(wide, narrow));
  }

  lemma TargetUpTo(narrow: Format, wide: Format, p: nat)
    requires Comparable(wide, narrow) && 0 < p <= Pow2(narrow.sig)
    ensures Target(wide, narrow, p) == p * Pow2(Scale(wide, narrow))
  {
    hide Pow2; hide Target; hide Scale;
    TargetSubnormal(wide, narrow, p - 1);
  }

  lemma TinyReturns(narrow: Format, wide: Format, a: nat)
    requires Comparable(wide, narrow) && 0 < a < Pow2(narrow.sig)
    ensures TinyResult(narrow, wide, a) >= 0
    ensures WordAbs(wide, narrow, Low(TinyResult(narrow, wide, a), wide.bits - 1)) == a <==>
          ResultExponent(narrow, wide, a) >= 0
  {
    hide Mag; hide Target; hide TruncAbs; hide Shr; hide Low; hide Pow2; hide BiasDiff; hide RaisesTie;
    hide ResultExponent; hide TinyResult; hide Renormalized;
    TinyFields(narrow, wide, a);
    InfIsLarge(narrow);
    var x, e := Low(TinyResult(narrow, wide, a), wide.bits - 1), ResultExponent(narrow, wide, a);
    if e >= 1 {
      TinyExactly(narrow, wide, a);
      RenormalizesExactly(narrow, wide, a);
      TinyLarge(narrow, wide, a);
      InfFits(wide);
      NormalReturns(narrow, wide, a, x);
    } else if x < Pow2(wide.sig) {
      SmallReturns(narrow, wide, a);
    } else {
      SpoiltLarger(narrow, wide, a, x);
    }
  }

  /** A number whose exponent field became 0 is taken to have a leading one again. */
  lemma SmallReturns(narrow: Format, wide: Format, a: nat)
    requires Comparable(wide, narrow) && 0 < a < Pow2(narrow.sig) && ResultExponent(narrow, wide, a) <= 0
    requires 0 <= Renormalized(narrow, wide, a) < Pow2(wide.sig)
    ensures WordAbs(wide, narrow, Renormalized(narrow, wide, a)) == a <==> ResultExponent(narrow, wide, a) == 0
  {
    hide TruncAbs; hide Shr; hide Low; hide Pow2; hide BiasDiff; hide RoundAt; hide TieDown; hide Overflow;
    hide ResultExponent; hide Renormalized;
    var x := Renormalized(narrow, wide, a);
    FractionTruncated(narrow, wide, x);
    LeadingOneBack(narrow, wide, a);
    PowerMoves(a, 0 - ResultExponent(narrow, wide, a));
    MakeFields(0, x, wide.sig);
  }

  lemma PowerMoves(a: nat, j: nat)
    requires a > 0
    ensures a * Pow2(j) == a <==> j == 0
  {
    if j > 0 {
      assert Pow2(j) == 2 * Pow2(j - 1);
      MulMono(2, Pow2(j), a);
    }
  }

  lemma TinyLarge(narrow: Format, wide: Format, a: nat)
    requires Comparable(wide, narrow) && 0 < a < Pow2(narrow.sig) && ResultExponent(narrow, wide, a) >= 1
    ensures TinyResult(narrow, wide, a) >= 0 && Shr(TinyResult(narrow, wide, a), wide.sig) >= 1
  {
    hide Pow2; hide BiasDiff; hide TopBit; hide SubWrap; hide Shr; hide Renormalized;
    var e := ResultExponent(narrow, wide, a);
    RenormalizedFits(narrow, wide, a);
    BiasGap(wide, narrow);
    InfIsLarge(narrow);
    ExponentKept(wide, e);
    MakeFields(e, Renormalized(narrow, wide, a), wide.sig);
  }

  lemma ReturnsByExponent(narrow: Format, wide: Format, a: nat)
    requires Comparable(wide, narrow) && 0 < a < Pow2(narrow.sig)
    ensures Returns(narrow, wide, a) <==> ResultExponent(narrow, wide, a) >= 0
  {
    var k, b := TopBit(a), BiasDiff(wide, narrow) + 1;
    Pow2Add(k, b);
    Pow2Add(k + 1, b);
    hide Pow2; hide BiasDiff; hide TopBit; hide Comparable;
    MulMono(Pow2(k), a, Pow2(b));
    MulMono(a + 1, Pow2(k + 1), Pow2(b));
    MulDist(a, 1, Pow2(b));
    if k + b >= narrow.sig {
      Pow2Mono(narrow.sig, k + b);
    } else {
      Pow2Mono(k + 1 + b, narrow.sig);
    }
  }

  // ----- whole patterns

  lemma AbsReturns(narrow: Format, wide: Format, a: nat)
    requires Comparable(wide, narrow) && a < Pow2(narrow.bits - 1)
    ensures ExtAbs(narrow, wide, a) >= 0
    ensures var r := WordAbs(wide, narrow, Low(ExtAbs(narrow, wide, a), wide.bits - 1));
            (r == a <==> Returns(narrow, wide, a)) && (Signaling(narrow, a) ==> r == a + Pow2(narrow.sig - 1))
  {
    hide WordAbs; hide Low; hide Pow2; hide BiasDiff; hide TinyResult; hide ResultExponent; hide Extended;
    hide Renormalizes;
    InfIsLarge(narrow);
    ExtendExactly(narrow, wide, a);
    if a >= Pow2(narrow.sig) {
      NormalRenormalizes(narrow, wide, a);
      if a < narrow.Inf() {
        NormalPatternReturns(narrow, wide, a);
      } else {
        SpecialReturns(narrow, wide, a);
      }
    } else if a > 0 {
      TinyReturns(narrow, wide, a);
      ReturnsByExponent(narrow, wide, a);
    } else {
      ZeroKept(wide, narrow);
    }
  }

  /** The way there and back gives the pattern back if and only if the pattern is one that
      returns; a signaling NaN comes back quiet. */
  lemma ThereAndBack(narrow: Format, wide: Format, aRep: nat)
    requires Comparable(wide, narrow) && aRep < Pow2(narrow.bits)
    ensures ExtRep(narrow, wide, aRep) >= 0
    ensures var r := TruncRep(wide, narrow, ExtRep(narrow, wide, aRep));
            && (r == aRep <==> Returns(narrow, wide, Low(aRep, narrow.bits - 1)))
            && (Signaling(narrow, Low(aRep, narrow.bits - 1)) ==> r == aRep + Pow2(narrow.sig - 1))
  {
    hide WordAbs; hide ExtAbs; hide ExtRep; hide Low; hide Shr; hide Pow2; hide BiasDiff; hide Extended;
    var a := Low(aRep, narrow.bits - 1);
    AbsReturns(narrow, wide, a);
    ExtRepFields(narrow, wide, aRep);
    ExtendExactly(narrow, wide, a);
    Fields(aRep, narrow.bits - 1);
    var x := ExtRep(narrow, wide, aRep);
    var r := WordAbs(wide, narrow, Low(x, wide.bits - 1));
    if ExtAbs(narrow, wide, a) >= Pow2(wide.bits - 1) {
      SpoiltSign(narrow, wide, a);
      WordAbsFits(wide, narrow, Low(x, wide.bits - 1));
      SignsDiffer(Shr(x, wide.bits - 1), r, Shr(aRep, narrow.bits - 1), a, Pow2(narrow.bits - 1));
    }
  }

  /** Back from a word of 8 or 16 bits, truncation is defined for the normal numbers of the
      smallest exponent only, and for all other patterns that return. */
  lemma ReturnDefined(narrow: Format, wide: Format, a: nat)
    requires Comparable(wide, narrow) && wide.bits <= 16 && a < Pow2(narrow.bits - 1)
    ensures ExtAbs(narrow, wide, a) >= 0
    ensures Returns(narrow, wide, a) ==>
          (Defined(wide, narrow, Low(ExtAbs(narrow, wide, a), wide.bits - 1)) <==>
           a < 2 * Pow2(narrow.sig) || a >= narrow.Inf())
  {
    hide Low; hide Shr; hide Pow2; hide BiasDiff; hide TinyResult; hide ResultExponent; hide Extended;
    hide Renormalizes; hide Defined; hide Overflow;
    InfIsLarge(narrow);
    ExtendExactly(narrow, wide, a);
    RangesOrdered(wide, narrow);
    MulMono(3, narrow.InfExp(), Pow2(narrow.sig));
    var x := Low(ExtAbs(narrow, wide, a), wide.bits - 1);
    DefinedExactly(wide, narrow, x);
    BelowOverflow(wide, narrow, x);
    if a >= Pow2(narrow.sig) {
      NormalRenormalizes(narrow, wide, a);
      Unsigned(ExtAbs(narrow, wide, a), wide.bits - 1);
      if a < narrow.Inf() {
        NormalField(narrow, wide, a);
        ShrCompare(a, 2, narrow.sig);
      } else {
        MulMono(0, Low(a, narrow.sig), Pow2(Dropped(wide, narrow)));
      }
    } else if a > 0 {
      ReturnsByExponent(narrow, wide, a);
      if Returns(narrow, wide, a) {
        TinyField(narrow, wide, a);
      }
    } else {
      ZeroFields(wide.bits - 1);
      ZeroFields(wide.sig);
    }
  }

  lemma Unsigned(x: nat, n: nat)
    requires x < Pow2(n)
    ensures Low(x, n) == x
  {
    hide Pow2;
    MakeFields(0, x, n);
  }

  lemma NormalField(narrow: Format, wide: Format, a: nat)
    requires Comparable(wide, narrow) && Pow2(narrow.sig) <= a < narrow.Inf()
    ensures ExtAbs(narrow, wide, a) >= 0 && Shr(ExtAbs(narrow, wide, a), wide.sig) ==
                Shr(a, narrow.sig) + BiasDiff(wide, narrow) < BiasDiff(wide, narrow) + narrow.InfExp()
  {
    hide Pow2; hide Shr; hide Low; hide BiasDiff; hide TinyResult;
    var d, b := Dropped(wide, narrow), BiasDiff(wide, narrow);
    var e, f := Shr(a, narrow.sig), Low(a, narrow.sig);
    NormalFields(narrow, a);
    Fields(a, narrow.sig);
    ExtendPattern(e, f, narrow.sig, d, b);
    MakeFields(e + b, f * Pow2(d), wide.sig);
  }

  lemma TinyField(narrow: Format, wide: Format, a: nat)
    requires Comparable(wide, narrow) && 0 < a < Pow2(narrow.sig) && ResultExponent(narrow, wide, a) >= 0
    ensures TinyResult(narrow, wide, a) >= 0
    ensures Shr(Low(TinyResult(narrow, wide, a), wide.bits - 1), wide.sig) <= BiasDiff(wide, narrow)
  {
    hide Pow2; hide BiasDiff; hide TopBit; hide SubWrap; hide Shr; hide Low; hide Renormalized; hide Lift;
    hide TinyResult;
    var e := ResultExponent(narrow, wide, a);
    assert e <= BiasDiff(wide, narrow);
    hide ResultExponent;
    RenormalizedFits(narrow, wide, a);
    TinyFields(narrow, wide, a);
    if e == 0 {
      MakeFields(0, Renormalized(narrow, wide, a), wide.sig);
    } else {
      TinyExponent(narrow, wide, a);
    }
  }

  lemma TinyExponent(narrow: Format, wide: Format, a: nat)
    requires Comparable(wide, narrow) && 0 < a < Pow2(narrow.sig) && ResultExponent(narrow, wide, a) >= 1
    ensures TinyResult(narrow, wide, a) >= 0
    ensures Shr(Low(TinyResult(narrow, wide, a), wide.bits - 1), wide.sig) == ResultExponent(narrow, wide, a)
  {
    hide Pow2; hide BiasDiff; hide TopBit; hide SubWrap; hide Shr; hide Low; hide Renormalized; hide Lift;
    var e := ResultExponent(narrow, wide, a);
    RenormalizedFits(narrow, wide, a);
    BiasGap(wide, narrow);
    InfIsLarge(narrow);
    ExponentKept(wide, e);
    MakeFields(e, Renormalized(narrow, wide, a), wide.sig);
    hide TinyResult; hide ResultExponent; hide Mag; hide Target;
    TinyExactly(narrow, wide, a);
    RenormalizesExactly(narrow, wide, a);
    InfFits(wide);
    Unsigned(TinyResult(narrow, wide, a), wide.bits - 1);
  }

  /** Where the exponent spoils the sign, the number does not come back. */
  lemma SpoiltSign(narrow: Format, wide: Format, a: nat)
    requires Comparable(wide, narrow) && ExtAbs(narrow, wide, a) >= Pow2(wide.bits - 1)
    ensures !Returns(narrow, wide, a) && !Signaling(narrow, a)
  {
    hide Pow2; hide BiasDiff; hide TinyResult; hide ResultExponent; hide Extended; hide Renormalizes; hide Low;
    InfIsLarge(narrow);
    ExtendExactly(narrow, wide, a);
    if a >= Pow2(narrow.sig) {
      NormalRenormalizes(narrow, wide, a);
      assert false;
    }
    ReturnsByExponent(narrow, wide, a);
    RenormalizesExactly(narrow, wide, a);
    if ResultExponent(narrow, wide, a) == 0 {
      SmallTiny(narrow, wide, a);
    }
  }

  lemma SmallTiny(narrow: Format, wide: Format, a: nat)
    requires Comparable(wide, narrow) && 0 < a < Pow2(narrow.sig) && ResultExponent(narrow, wide, a) == 0
    ensures TinyResult(narrow, wide, a) < Pow2(wide.bits - 1)
  {
    hide Pow2; hide BiasDiff; hide Renormalized; hide ResultExponent; hide SubWrap;
    RenormalizedFits(narrow, wide, a);
    SubWrapIs(0, 0, wide.bits - wide.sig);
    Pow2Mono(wide.sig, wide.bits - 1);
  }

  lemma SignsDiffer(s: nat, r: int, t: nat, a: nat, p: nat)
    requires 0 <= r < p && a < p && r != a
    ensures r + s * p != t * p + a
  {
    if r + s * p == t * p + a {
      DivModUnique(r + s * p, p, s, r);
      DivModUnique(t * p + a, p, t, a);
    }
  }

  /** The two conversions one after the other. */
  method RoundTrip(narrow: Format, wide: Format, aRep: nat) returns (x: nat, r: Option<nat>)
    requires Comparable(wide, narrow) && narrow.bits <= 32 && aRep < Pow2(narrow.bits)
    ensures r.Some? <==> Defined(wide, narrow, Low(x, wide.bits - 1))
    ensures r.Some? ==> (r.value == aRep <==> Returns(narrow, wide, Low(aRep, narrow.bits - 1)))
    ensures r.Some? && Signaling(narrow, Low(aRep, narrow.bits - 1)) ==> r.value == aRep + Pow2(narrow.sig - 1)
    ensures r.Some? && Narrows(wide, narrow) ==>
          (r.value == aRep <==> !Signaling(narrow, Low(aRep, narrow.bits - 1)))
    ensures wide.bits >= INT_BITS ==> r.Some?
    ensures var a := Low(aRep, narrow.bits - 1);
            wide.bits <= 16 ==>
              (r == Some(aRep) <==> Returns(narrow, wide, a) && (a < 2 * Pow2(narrow.sig) || a >= narrow.Inf()))
  {
    hide Pow2; hide Low; hide Shr; hide TruncRep; hide ExtRep; hide Extended; hide Truncated; hide Kept;
    hide Renormalizes; hide Returns; hide Signaling; hide RaisesTie; hide Defined; hide ExtAbs;
    ThereAndBack(narrow, wide, aRep);
    ExtRepFields(narrow, wide, aRep);
    if Narrows(wide, narrow) {
      NarrowReturns(narrow, wide, Low(aRep, narrow.bits - 1));
    }
    if wide.bits <= 16 {
      ReturnDefined(narrow, wide, Low(aRep, narrow.bits - 1));
    }
    WideDefined(wide, narrow, Low(ExtRep(narrow, wide, aRep), wide.bits - 1));
    x := Extend(narrow, wide, aRep);
    r := Truncate(wide, narrow, x);
  }

  lemma WideDefined(wide: Format, narrow: Format, x: nat)
    requires Comparable(wide, narrow)
    ensures wide.bits >= INT_BITS ==> Defined(wide, narrow, x)
  {
  }

  /** In a narrow enough format everything but signaling NaNs comes back. */
  lemma NarrowReturns(narrow: Format, wide: Format, a: nat)
    requires Narrows(wide, narrow)
    ensures Returns(narrow, wide, a) <==> !Signaling(narrow, a)
  {
    InfIsLarge(narrow);
    Pow2Mono(narrow.sig, BiasDiff(wide, narrow) + 1);
    hide Pow2; hide Low;
    if 0 < a < Pow2(narrow.sig) {
      MulMono(1, a, Pow2(BiasDiff(wide, narrow) + 1));
    }
  }

  /** The number 1: the exponent field is the bias. */
  ghost function One(f: Format): nat
    requires f.Valid()
  {
    MulMono(0, f.Bias(), Pow2(f.sig));
    f.Bias() * Pow2(f.sig)
  }

  lemma BiasPositive(f: Format)
    requires f.Valid()
    ensures f.Bias() >= 1 && f.InfExp() == 2 * f.Bias() + 1
  {
    InfFits(f);
    Pow2Mono(1, f.ExpBits() - 1);
    Pow2Values();
  }

  /** In both formats it is the same number. */
  lemma OneIsOne(narrow: Format, wide: Format)
    requires Comparable(wide, narrow)
    ensures Mag(wide, One(wide)) == Target(wide, narrow, One(narrow))
    ensures Shr(One(wide), wide.sig) == wide.Bias() && Pow2(wide.sig) <= One(wide) < wide.Inf()
    ensures Shr(One(narrow), narrow.sig) == narrow.Bias() && Pow2(narrow.sig) <= One(narrow) < narrow.Inf()
  {
    BiasPositive(wide);
    BiasPositive(narrow);
    hide Pow2; hide Mag;
    MagPower(wide, wide.Bias());
    MagPower(narrow, narrow.Bias());
    Pow2Add(narrow.sig + (narrow.Bias() - 1), Scale(wide, narrow));
    OneFields(wide);
    OneFields(narrow);
  }

  lemma OneFields(f: Format)
    requires f.Valid() && 1 <= f.Bias() < f.InfExp()
    ensures Shr(One(f), f.sig) == f.Bias() && Pow2(f.sig) <= One(f) < f.Inf()
  {
    hide Pow2; hide Shr;
    MakeFields(f.Bias(), 0, f.sig);
    MulMono(1, f.Bias(), Pow2(f.sig));
    MulMono(f.Bias() + 1, f.InfExp(), Pow2(f.sig));
    MulDist(f.Bias(), 1, Pow2(f.sig));
  }

  /** Both conversions keep it. */
  lemma OneKept(narrow: Format, wide: Format)
    requires Comparable(wide, narrow)
    ensures TruncAbs(wide, narrow, One(wide)) == One(narrow) && ExtAbs(narrow, wide, One(narrow)) == One(wide)
  {
    hide Mag; hide Target; hide NearestEven; hide TruncAbs; hide Shr; hide Low; hide Pow2; hide BiasDiff; hide Harmless;
    OneIsOne(narrow, wide);
    BiasPositive(wide);
    PromiseExactly(wide, narrow, One(wide));
    NearestExact(wide, narrow, One(narrow), TruncAbs(wide, narrow, One(wide)));
    ExtendNormal(narrow, wide, One(narrow));
    MagInjective(wide, ExtAbs(narrow, wide, One(narrow)), One(wide));
  }

  /** Different patterns are different numbers. */
  lemma MagInjective(f: Format, a: nat, b: nat)
    requires Mag(f, a) == Mag(f, b)
    ensures a == b
  {
    hide Mag;
    if a < b { MagMono(f, a, b); }
    if b < a { MagMono(f, b, a); }
  }

  /** In single and half precision. */
  lemma OneInHalf()
    ensures One(Format(32, 23)) == 0x3f80_0000 && One(Format(16, 10)) == 0x3c00 && One(Format(16, 7)) == 0x3f80
  {
    Pow2Values();
    assert Pow2(23) == 0x80_0000 by { Pow2Add(8, 15); }
    assert Pow2(10) == 0x400;
  }

  /** What becomes of zero. */
  lemma ZeroThereAndBack(narrow: Format, wide: Format)
    requires Comparable(wide, narrow) && wide.bits >= INT_BITS
    ensures ExtRep(narrow, wide, 0) == 0 && Shr(0, wide.sig) <= BiasDiff(wide, narrow)
    ensures TruncRep(wide, narrow, 0) == SmallResult(wide, narrow, 0)
  {
    hide Pow2; hide SmallResult; hide BiasDiff; hide Shift; hide Significand; hide TieDown; hide Rebiased; hide RoundAt;
    ZeroFields(narrow.bits - 1);
    ZeroFields(wide.bits - 1);
    ZeroFields(wide.sig);
    InfIsLarge(narrow);
    InfIsLarge(wide);
    RangesOrdered(wide, narrow);
    BelowUnderflow(wide, narrow, 0);
    hide Shr; hide Low; hide Underflow; hide Overflow; hide TinyResult;
  }

  /** Brain floats extend to single precision and back: zero comes back as the pattern 0x40. */
  lemma BrainZeroBack()
    ensures Comparable(Format(32, 23), Format(16, 7)) && !Returns(Format(16, 7), Format(32, 23), 0)
    ensures ExtRep(Format(16, 7), Format(32, 23), 0) == 0 && TruncRep(Format(32, 23), Format(16, 7), 0) == 0x40
  {
    hide Pow2; hide BiasDiff; hide Comparable; hide ExtRep; hide TruncRep; hide SmallResult; hide NearestEven; hide Mag;
    BrainValues();
    ZeroToBrainFloat();
    ZeroThereAndBack(Format(16, 7), Format(32, 23));
  }

  /** The largest subnormal brain float comes back, although its value is spoilt on the way. */
  lemma BrainSubnormalBack()
    ensures Comparable(Format(32, 23), Format(16, 7))
    ensures Returns(Format(16, 7), Format(32, 23), 127) && !Renormalizes(Format(16, 7), Format(32, 23), 127)
  {
    hide Pow2; hide BiasDiff; hide Comparable;
    BrainValues();
    Pow2Values();
  }

  lemma ZeroFields(n: nat)
    ensures Low(0, n) == 0 && Shr(0, n) == 0
  {
    hide Pow2;
    MakeFields(0, 0, n);
  }
}
