/**
 Extension on bit patterns, with the unsigned arithmetic of the code.
 */
module FloatExtend {
  import opened Bits
  import opened FloatFormat
  import opened FloatRound
  import opened FloatTruncate
  import opened FloatConvert

  /** What extension promises: numbers keep their value, NaNs their payload. */
  ghost predicate Extended(narrow: Format, wide: Format, a: nat, r: nat)
    requires Comparable(wide, narrow)
  {
    if a < narrow.Inf() then r < wide.Inf() && Mag(wide, r) == Target(wide, narrow, a)
    else r == wide.Inf() + Low(a, narrow.sig) * Pow2(Dropped(wide, narrow))
  }

  lemma ShrStep(x0: nat, s: nat, k: nat)
    ensures Shr(Shr(x0, s), k) == Shr(x0, s + k)
    ensures Shr(Shr(x0, s), k) == 0 ==> Shr(x0, s) < Pow2(k)
    ensures Shr(x0, s) < Pow2(k + k) ==> Shr(Shr(x0, s), k) < Pow2(k)
  {
    hide Pow2;
    var x := Shr(x0, s);
    Split(x0, s, k);
    Fields(x, k);
    if x < Pow2(k + k) {
      Pow2Add(k, k);
      DivBound(x, Pow2(k), Pow2(k));
    }
  }

  lemma ZeroShift(k: nat)
    ensures Shr(0, k) == 0
  {
    hide Pow2;
    DivModUnique(0, Pow2(k), 0, 0);
  }

  /** One halving of the search for the leading one. */
  method HalveClz(x: nat, n: nat, k: nat, ghost x0: nat) returns (x': nat, n': nat)
    requires 2 * k <= n <= 32 && x == Shr(x0, 32 - n) && x < Pow2(k + k) && (x0 > 0 ==> x > 0)
    ensures n - k <= n' <= n && x' == Shr(x0, 32 - n') && x' < Pow2(k) && (x0 > 0 ==> x' > 0)
    ensures x == 0 ==> x' == 0 && n' == n
  {
    hide Pow2; hide Shr;
    ShrStep(x0, 32 - n, k);
    ZeroShift(k);
    var y := Shr(x, k);
    x', n' := x, n;
    if y != 0 {
      n' := n - k;
      x' := y;
    }
  }

  lemma LeadingBit(x0: nat, s: nat, x: nat)
    requires x == Shr(x0, s) && 1 <= x < 4
    ensures x == 1 ==> Pow2(s) <= x0 < Pow2(s + 1)
    ensures x >= 2 ==> Pow2(s + 1) <= x0 < Pow2(s + 2)
  {
    assert Pow2(s + 1) == 2 * Pow2(s) && Pow2(s + 2) == 4 * Pow2(s);
    hide Pow2; hide Shr; hide Low;
    Fields(x0, s);
    if x == 1 { } else if x == 2 { } else { assert x == 3; }
  }

  lemma ClzStart(x0: nat)
    ensures Pow2(2) == 4 && Shr(x0, 0) == x0
  {
  }

  /** Count the leading zeros of a 32-bit number. */
  method Clz(x0: nat) returns (n: nat)
    requires x0 < Pow2(32)
    ensures x0 == 0 ==> n == 32
    ensures x0 > 0 ==> n <= 31 && Pow2(31 - n) <= x0 < Pow2(32 - n)
  {
    hide Pow2; hide Shr;
    ClzStart(x0);
    var x := x0;
    n := 32;
    x, n := HalveClz(x, n, 16, x0);
    x, n := HalveClz(x, n, 8, x0);
    x, n := HalveClz(x, n, 4, x0);
    x, n := HalveClz(x, n, 2, x0);
    assert x < 4 && n >= 2;
    if x0 > 0 {
      LeadingBit(x0, 32 - n, x);
    }
    if x >= 2 {
      return n - 2;
    }
    return n - x;
  }

  /** The pattern that extension makes from exponent field e and fraction f. */
  lemma ExtendPattern(e: nat, f: nat, k: nat, d: nat, b: nat)
    requires f < Pow2(k)
    ensures 0 <= f * Pow2(d) < Pow2(k + d)
    ensures (e * Pow2(k) + f) * Pow2(d) + b * Pow2(k + d) == (e + b) * Pow2(k + d) + f * Pow2(d)
    ensures (Pow2(k) + f) * Pow2(d) == Pow2(k + d) + f * Pow2(d)
  {
    hide Pow2;
    Pow2Add(k, d);
    MulDist(e * Pow2(k), f, Pow2(d));
    MulAssoc(e, Pow2(k), Pow2(d));
    MulDist(e, b, Pow2(k + d));
    MulMono(0, f, Pow2(d));
    MulMono(f + 1, Pow2(k), Pow2(d));
    MulDist(f, 1, Pow2(d));
    MulDist(Pow2(k), f, Pow2(d));
  }

  lemma NormalFields(narrow: Format, a: nat)
    requires narrow.Valid() && Pow2(narrow.sig) <= a < narrow.Inf()
    ensures 1 <= Shr(a, narrow.sig) < narrow.InfExp()
  {
    hide Pow2; hide Shr;
    ShrCompare(a, 1, narrow.sig);
    ShrCompare(a, narrow.InfExp(), narrow.sig);
  }

  lemma ExtendNormal(narrow: Format, wide: Format, a: nat)
    requires Comparable(wide, narrow) && Pow2(narrow.sig) <= a < narrow.Inf()
    ensures var r := a * Pow2(Dropped(wide, narrow)) + BiasDiff(wide, narrow) * Pow2(wide.sig);
            0 <= r < wide.Inf() && Mag(wide, r) == Target(wide, narrow, a)
  {
    hide Pow2; hide Shr; hide Low; hide Target; hide BiasDiff; hide Mag;
    var d, b := Dropped(wide, narrow), BiasDiff(wide, narrow);
    var e, f := Shr(a, narrow.sig), Low(a, narrow.sig);
    NormalFields(narrow, a);
    BiasGap(wide, narrow);
    Fields(a, narrow.sig);
    ExtendPattern(e, f, narrow.sig, d, b);
    TargetNormal(wide, narrow, e, f);
    MagNormal(wide, e + b, f * Pow2(d));
    MulMono(e + b + 1, wide.InfExp(), Pow2(wide.sig));
    MulDist(e + b, 1, Pow2(wide.sig));
  }

  lemma MagNormal(f: Format, e: nat, m: nat)
    requires e >= 1 && m < Pow2(f.sig)
    ensures e * Pow2(f.sig) + m >= 0 && Mag(f, e * Pow2(f.sig) + m) == (Pow2(f.sig) + m) * Pow2(e - 1)
  {
    hide Pow2; hide Shr; hide Low;
    MakeFields(e, m, f.sig);
  }

  lemma BiasGap(wide: Format, narrow: Format)
    requires Comparable(wide, narrow)
    ensures BiasDiff(wide, narrow) + narrow.InfExp() <= wide.InfExp()
  {
    InfFits(wide);
    InfFits(narrow);
  }

  // ----- subnormal numbers

  /** The number of the leading one of a. */
  function TopBit(a: nat): (k: nat)
    requires a > 0
    ensures Pow2(k) <= a < Pow2(k + 1)
  {
    if a == 1 then 0 else 1 + TopBit(a / 2)
  }

  /** The number can be renormalized: it is not below the normal range of the wide format. */
  predicate Renormalizes(narrow: Format, wide: Format, a: nat)
    requires Comparable(wide, narrow)
  {
    a == 0 || a * Pow2(BiasDiff(wide, narrow)) >= Pow2(narrow.sig)
  }

  /** The fraction that is left when the leading one is moved to its place and cleared. */
  function Renormalized(narrow: Format, wide: Format, a: nat): int
    requires Comparable(wide, narrow) && 0 < a < Pow2(narrow.sig)
  {
    a * Pow2(Dropped(wide, narrow) + Lift(narrow, a)) - Pow2(wide.sig)
  }

  /** How far the leading one is below its place. */
  function Lift(narrow: Format, a: nat): (scale: nat)
    requires 0 < a < Pow2(narrow.sig)
    ensures 1 <= scale <= narrow.sig
  {
    LeadingBitBelow(a, narrow.sig, TopBit(a));
    narrow.sig - TopBit(a)
  }

  /** The exponent of the result, which need not be positive. */
  function ResultExponent(narrow: Format, wide: Format, a: nat): int
    requires Comparable(wide, narrow) && 0 < a < Pow2(narrow.sig)
  {
    BiasDiff(wide, narrow) - Lift(narrow, a) + 1
  }

  /** The pattern for a subnormal number.  A left shift by sig keeps the bits - sig low bits of
      the exponent in unsigned arithmetic. */
  function TinyResult(narrow: Format, wide: Format, a: nat): int
    requires Comparable(wide, narrow) && 0 < a < Pow2(narrow.sig)
  {
    Renormalized(narrow, wide, a) + SubWrap(ResultExponent(narrow, wide, a), 0, wide.bits - wide.sig) * Pow2(wide.sig)
  }

  lemma RenormalizedFits(narrow: Format, wide: Format, a: nat)
    requires Comparable(wide, narrow) && 0 < a < Pow2(narrow.sig)
    ensures 0 <= Renormalized(narrow, wide, a) < Pow2(wide.sig)
    ensures 0 <= TinyResult(narrow, wide, a) < Pow2(wide.bits)
  {
    hide ResultExponent; hide SubWrap;
    LeadingBitBelow(a, narrow.sig, TopBit(a));
    var k, w := TopBit(a), wide.sig - TopBit(a);
    Pow2Add(k, w);
    assert Pow2(k + 1) == 2 * Pow2(k);
    hide Pow2; hide TopBit;
    assert Dropped(wide, narrow) + Lift(narrow, a) == w;
    MulMono(Pow2(k), a, Pow2(w));
    MulMono(a + 1, 2 * Pow2(k), Pow2(w));
    MulDist(a, 1, Pow2(w));
    MulAssoc(2, Pow2(k), Pow2(w));
    var q, n := SubWrap(ResultExponent(narrow, wide, a), 0, wide.bits - wide.sig), wide.bits - wide.sig;
    Pow2Add(n, wide.sig);
    MulMono(0, q, Pow2(wide.sig));
    MulMono(q + 1, Pow2(n), Pow2(wide.sig));
    MulDist(q, 1, Pow2(wide.sig));
  }

  /** A number can be renormalized exactly when its exponent in the wide format is positive. */
  lemma RenormalizesExactly(narrow: Format, wide: Format, a: nat)
    requires Comparable(wide, narrow) && 0 < a < Pow2(narrow.sig)
    ensures Renormalizes(narrow, wide, a) <==> ResultExponent(narrow, wide, a) >= 1
  {
    hide Comparable;
    var k, b := TopBit(a), BiasDiff(wide, narrow);
    Pow2Add(k, b);
    Pow2Add(k + 1, b);
    hide Pow2; hide BiasDiff; hide TopBit;
    MulMono(Pow2(k), a, Pow2(b));
    MulMono(a + 1, Pow2(k + 1), Pow2(b));
    MulDist(a, 1, Pow2(b));
    if k + b >= narrow.sig {
      Pow2Mono(narrow.sig, k + b);
    } else {
      Pow2Mono(k + 1 + b, narrow.sig);
    }
  }

  /** Renormalizing keeps the value. */
  lemma ExtendSubnormal(narrow: Format, wide: Format, a: nat)
    requires Comparable(wide, narrow) && 0 < a < Pow2(narrow.sig) && ResultExponent(narrow, wide, a) >= 1
    ensures var r := TinyResult(narrow, wide, a);
            0 <= r < wide.Inf() && Mag(wide, r) == Target(wide, narrow, a)
  {
    hide Pow2; hide Target; hide BiasDiff; hide TopBit; hide Mag; hide SubWrap;
    var e, w, m := ResultExponent(narrow, wide, a), wide.sig - TopBit(a), Renormalized(narrow, wide, a);
    RenormalizedFits(narrow, wide, a);
    BiasGap(wide, narrow);
    InfIsLarge(narrow);
    ExponentKept(wide, e);
    MagNormal(wide, e, m);
    TargetSubnormal(wide, narrow, a);
    ShiftPowers(a, w, e - 1);
    assert Scale(wide, narrow) == w + (e - 1);
    MulMono(e + 1, wide.InfExp(), Pow2(wide.sig));
    MulDist(e, 1, Pow2(wide.sig));
  }

  lemma ExponentKept(wide: Format, e: nat)
    requires wide.Valid() && e <= wide.InfExp()
    ensures SubWrap(e, 0, wide.bits - wide.sig) == e
  {
    hide SubWrap;
    Pow2Strict(wide.ExpBits(), wide.bits - wide.sig);
    SubWrapIs(e, 0, wide.bits - wide.sig);
  }

  /** A power of two has no odd factor above one. */
  lemma {:induction false} NoOddFactor(x: nat, h: nat, n: nat)
    requires h >= 1
    ensures x * (2 * h + 1) != Pow2(n)
    decreases n
  {
    if x * (2 * h + 1) == Pow2(n) {
      if n == 0 {
        if x > 0 { MulMono(1, x, 2 * h + 1); }
      } else {
        assert x * (2 * h + 1) == 2 * (x * h) + x by { MulAssoc(2, x, h); }
        assert x % 2 == 0;
        MulAssoc(2, x / 2, 2 * h + 1);
        NoOddFactor(x / 2, h, n - 1);
      }
    }
  }

  /** Below the normal range of the wide format the fraction alone is never the number. */
  lemma FractionDiffers(x: nat, j: nat, n: nat)
    requires j >= 1 && x < Pow2(n)
    ensures x * Pow2(j) - Pow2(n) != x
  {
    Doubles(j);
    hide Pow2;
    var h := Pow2(j - 1) - 1;
    OneLess(x, h);
    if h >= 1 {
      NoOddFactor(x, h, n);
    }
  }

  lemma OneLess(x: nat, h: nat)
    ensures x * (2 * (h + 1)) == x * (2 * h + 1) + x
    ensures h == 0 ==> x * (2 * h + 1) == x
  {
  }

  /** A number that cannot be renormalized is spoilt: the exponent wraps around. */
  lemma TinySpoilt(narrow: Format, wide: Format, a: nat)
    requires Comparable(wide, narrow) && 0 < a < Pow2(narrow.sig) && ResultExponent(narrow, wide, a) < 1
    ensures TinyResult(narrow, wide, a) >= 0
    ensures Mag(wide, Low(TinyResult(narrow, wide, a), wide.bits - 1)) != Target(wide, narrow, a)
  {
    hide Pow2; hide Target; hide BiasDiff; hide TopBit; hide Mag; hide SubWrap; hide Low;
    RenormalizedFits(narrow, wide, a);
    var r, m := TinyResult(narrow, wide, a), Renormalized(narrow, wide, a);
    var l := Low(r, wide.bits - 1);
    var x := Target(wide, narrow, a);
    TargetSubnormal(wide, narrow, a);
    BelowNormal(narrow, wide, a);
    if l >= Pow2(wide.sig) {
      MagMono(wide, Pow2(wide.sig), l);
      MagNormal(wide, 1, 0);
      OneUnit(wide.sig);
    } else {
      var q := SubWrap(ResultExponent(narrow, wide, a), 0, wide.bits - wide.sig);
      MakeFields(q, m, wide.sig);
      LowOfLower(r, wide.bits - 1, wide.sig);
      MagFraction(wide, l);
      var j := 1 - ResultExponent(narrow, wide, a);
      ShiftPowers(a, Scale(wide, narrow), j);
      FractionDiffers(x, j, wide.sig);
    }
  }

  lemma MagFraction(f: Format, m: nat)
    requires m < Pow2(f.sig)
    ensures Mag(f, m) == m
  {
    hide Pow2; hide Shr; hide Low;
    MakeFields(0, m, f.sig);
  }

  lemma LowOfLower(x: nat, n: nat, k: nat)
    requires k <= n
    ensures Low(Low(x, n), k) == Low(x, k)
  {
    hide Pow2;
    Split(x, k, n - k);
  }

  lemma BelowNormal(narrow: Format, wide: Format, a: nat)
    requires Comparable(wide, narrow) && 0 < a < Pow2(narrow.sig) && ResultExponent(narrow, wide, a) < 1
    ensures 0 <= a * Pow2(Scale(wide, narrow)) < Pow2(wide.sig)
  {
    hide Pow2;
    RenormalizesExactly(narrow, wide, a);
    hide BiasDiff; hide ResultExponent;
    var b, d := BiasDiff(wide, narrow), wide.sig - narrow.sig;
    ShiftPowers(a, b, d);
    Pow2Add(narrow.sig, d);
    MulMono(0, a, Pow2(b));
    MulMono(0, a * Pow2(b), Pow2(d));
    MulMono(a * Pow2(b) + 1, Pow2(narrow.sig), Pow2(d));
    MulDist(a * Pow2(b), 1, Pow2(d));
  }

  /** All numbers of a format can be extended exactly when the exponent range is narrower by at
      least the width of the fraction. */
  lemma AllRenormalize(narrow: Format, wide: Format)
    requires Comparable(wide, narrow)
    ensures (forall a: nat :: Renormalizes(narrow, wide, a)) <==> BiasDiff(wide, narrow) >= narrow.sig
  {
    hide Comparable; hide BiasDiff;
    var b := BiasDiff(wide, narrow);
    if b >= narrow.sig {
      Pow2Mono(narrow.sig, b);
      hide Pow2;
      forall a: nat ensures Renormalizes(narrow, wide, a) {
        if a > 0 { MulMono(1, a, Pow2(b)); }
      }
    } else {
      Pow2Strict(b, narrow.sig);
      assert !Renormalizes(narrow, wide, 1);
    }
  }

  /** Brain floats have the exponents of single precision: the smallest of them becomes the
      pattern of a large negative number. */
  lemma TinyBrainFloat()
    ensures Comparable(Format(32, 23), Format(16, 7)) && Pow2(7) == 128
    ensures !Renormalizes(Format(16, 7), Format(32, 23), 1)
    ensures TinyResult(Format(16, 7), Format(32, 23), 1) == 0xFD00_0000
  {
    SingleToHalf();
    Pow2Values();
    BrainValues();
    Pow2Add(15, 8);
    hide Pow2; hide BiasDiff; hide SubWrap; hide Comparable;
    var narrow, wide := Format(16, 7), Format(32, 23);
    assert Lift(narrow, 1) == 7;
    assert Renormalized(narrow, wide, 1) == 0;
    SubWrapIs(-6, 0, 9);
  }

  // ----- the conversion

  /** The pattern that extension makes of a pattern without its sign. */
  ghost function ExtAbs(narrow: Format, wide: Format, a: nat): int
    requires Comparable(wide, narrow)
  {
    if Pow2(narrow.sig) <= a < narrow.Inf() then
      a * Pow2(Dropped(wide, narrow)) + BiasDiff(wide, narrow) * Pow2(wide.sig)
    else if a >= narrow.Inf() then wide.Inf() + Low(a, narrow.sig) * Pow2(Dropped(wide, narrow))
    else if a != 0 then TinyResult(narrow, wide, a)
    else 0
  }

  /** The value is kept exactly if the number can be renormalized. */
  lemma ExtendExactly(narrow: Format, wide: Format, a: nat)
    requires Comparable(wide, narrow)
    ensures 0 <= ExtAbs(narrow, wide, a) < Pow2(wide.bits)
    ensures Renormalizes(narrow, wide, a) ==> ExtAbs(narrow, wide, a) < Pow2(wide.bits - 1)
    ensures Extended(narrow, wide, a, Low(ExtAbs(narrow, wide, a), wide.bits - 1)) <==> Renormalizes(narrow, wide, a)
  {
    hide Pow2; hide Target; hide Mag; hide Low; hide Shr; hide BiasDiff; hide Renormalizes; hide Extended;
    hide TinyResult;
    InfFits(wide);
    InfIsLarge(narrow);
    if Pow2(narrow.sig) <= a < narrow.Inf() {
      ExtendedNormal(narrow, wide, a);
      NormalRenormalizes(narrow, wide, a);
    } else if a >= narrow.Inf() {
      ExtendedSpecial(narrow, wide, a);
      NormalRenormalizes(narrow, wide, a);
    } else if a != 0 {
      TinyExactly(narrow, wide, a);
      ExtendedTiny(narrow, wide, a, Low(TinyResult(narrow, wide, a), wide.bits - 1));
    } else {
      ZeroExtends(narrow, wide);
    }
  }

  lemma TinyExactly(narrow: Format, wide: Format, a: nat)
    requires Comparable(wide, narrow) && 0 < a < Pow2(narrow.sig)
    ensures 0 <= TinyResult(narrow, wide, a) < Pow2(wide.bits)
    ensures Renormalizes(narrow, wide, a) ==> TinyResult(narrow, wide, a) < wide.Inf()
    ensures var x := Low(TinyResult(narrow, wide, a), wide.bits - 1);
            x < wide.Inf() && Mag(wide, x) == Target(wide, narrow, a) <==> Renormalizes(narrow, wide, a)
  {
    hide Pow2; hide Target; hide Mag; hide Low; hide Shr; hide BiasDiff; hide Renormalizes; hide SubWrap; hide TopBit;
    RenormalizedFits(narrow, wide, a);
    RenormalizesExactly(narrow, wide, a);
    InfFits(wide);
    if ResultExponent(narrow, wide, a) >= 1 {
      ExtendSubnormal(narrow, wide, a);
    } else {
      TinySpoilt(narrow, wide, a);
    }
  }

  /** The case distinction on the pattern without the sign. */
  method ExtendAbs(narrow: Format, wide: Format, a: nat) returns (r: nat)
    requires Comparable(wide, narrow) && narrow.bits <= 32 && a < Pow2(narrow.bits - 1)
    ensures r == ExtAbs(narrow, wide, a) && r < Pow2(wide.bits)
    ensures Extended(narrow, wide, a, Low(r, wide.bits - 1)) <==> Renormalizes(narrow, wide, a)
  {
    hide Pow2; hide Target; hide Mag; hide Low; hide Shr; hide BiasDiff; hide Renormalizes; hide SubWrap; hide Extended;
    hide TinyResult;
    ExtendExactly(narrow, wide, a);
    InfFits(narrow);
    InfIsLarge(narrow);
    RangeTest(a, Pow2(narrow.sig), narrow.Inf(), narrow.bits);
    if SubWrap(a, Pow2(narrow.sig), narrow.bits) < narrow.Inf() - Pow2(narrow.sig) {
      ExtendedNormal(narrow, wide, a);
      r := a * Pow2(Dropped(wide, narrow));
      r := r + BiasDiff(wide, narrow) * Pow2(wide.sig);
    } else if a >= narrow.Inf() {
      ExtendedSpecial(narrow, wide, a);
      r := wide.Inf();
      r := r + Low(a, narrow.sig) * Pow2(Dropped(wide, narrow));
    } else if a != 0 {
      r := ExtendTiny(narrow, wide, a);
    } else {
      r := 0;
    }
  }

  lemma ExtendedNormal(narrow: Format, wide: Format, a: nat)
    requires Comparable(wide, narrow) && Pow2(narrow.sig) <= a < narrow.Inf()
    ensures var r := a * Pow2(Dropped(wide, narrow)) + BiasDiff(wide, narrow) * Pow2(wide.sig);
            0 <= a * Pow2(Dropped(wide, narrow)) && 0 <= r < Pow2(wide.bits - 1) && Extended(narrow, wide, a, r)
  {
    hide Pow2; hide Mag; hide Target; hide BiasDiff;
    ExtendNormal(narrow, wide, a);
    InfFits(wide);
    MulMono(0, a, Pow2(Dropped(wide, narrow)));
  }

  lemma ExtendedSpecial(narrow: Format, wide: Format, a: nat)
    requires Comparable(wide, narrow) && narrow.Inf() <= a
    ensures var r := wide.Inf() + Low(a, narrow.sig) * Pow2(Dropped(wide, narrow));
            0 <= r < Pow2(wide.bits - 1) && Extended(narrow, wide, a, r)
  {
    hide Pow2; hide Mag; hide Target; hide BiasDiff; hide Low;
    PayloadExtends(narrow, wide, a);
    InfFits(wide);
  }

  lemma ExtendedTiny(narrow: Format, wide: Format, a: nat, r: nat)
    requires Comparable(wide, narrow) && a < Pow2(narrow.sig)
    ensures Extended(narrow, wide, a, r) <==> r < wide.Inf() && Mag(wide, r) == Target(wide, narrow, a)
  {
    hide Pow2; hide Mag; hide Target; hide Low;
    InfIsLarge(narrow);
  }

  lemma NormalRenormalizes(narrow: Format, wide: Format, a: nat)
    requires Comparable(wide, narrow) && a >= Pow2(narrow.sig)
    ensures Renormalizes(narrow, wide, a)
  {
    hide Pow2; hide BiasDiff; hide Comparable;
    MulMono(1, Pow2(BiasDiff(wide, narrow)), a);
  }

  method ExtendTiny(narrow: Format, wide: Format, a: nat) returns (r: nat)
    requires Comparable(wide, narrow) && narrow.bits <= 32 && 0 < a < Pow2(narrow.sig)
    ensures r == TinyResult(narrow, wide, a)
  {
    hide Pow2; hide BiasDiff; hide SubWrap; hide TopBit;
    Pow2Mono(narrow.sig, 31);
    Pow2Strict(31, 32);
    var n := Clz(a);
    var n0 := Clz(Pow2(narrow.sig));
    LeadingBitOfPower(narrow.sig, 31 - n0);
    SameTopBit(a, 31 - n, TopBit(a));
    assert n == n0 + Lift(narrow, a);
    var scale := n - n0;
    RenormalizedFits(narrow, wide, a);
    r := a * Pow2(Dropped(wide, narrow) + scale) - Pow2(wide.sig);
    var resultExponent := BiasDiff(wide, narrow) - scale + 1;
    r := r + SubWrap(resultExponent, 0, wide.bits - wide.sig) * Pow2(wide.sig);
  }

  lemma SameTopBit(a: nat, j: nat, k: nat)
    requires Pow2(j) <= a < Pow2(j + 1) && Pow2(k) <= a < Pow2(k + 1)
    ensures j == k
  {
    hide Pow2;
    if j < k {
      Pow2Mono(j + 1, k);
    } else if k < j {
      Pow2Mono(k + 1, j);
    }
  }

  lemma RangeTest(a: nat, lo: nat, hi: nat, n: nat)
    requires a < Pow2(n) && lo <= hi < Pow2(n)
    ensures SubWrap(a, lo, n) < hi - lo <==> lo <= a < hi
  {
    hide SubWrap; hide Pow2;
    SubWrapIs(a, lo, n);
  }

  lemma PayloadExtends(narrow: Format, wide: Format, a: nat)
    requires Comparable(wide, narrow)
    ensures 0 <= Low(a, narrow.sig) * Pow2(Dropped(wide, narrow)) < Pow2(wide.sig)
  {
    hide Pow2; hide Low;
    var d := Dropped(wide, narrow);
    Pow2Add(narrow.sig, d);
    MulMono(0, Low(a, narrow.sig), Pow2(d));
    MulMono(Low(a, narrow.sig) + 1, Pow2(narrow.sig), Pow2(d));
    MulDist(Low(a, narrow.sig), 1, Pow2(d));
  }

  lemma LeadingBitOfPower(s: nat, k: nat)
    requires Pow2(k) <= Pow2(s) < Pow2(k + 1)
    ensures k == s
  {
    if k < s {
      Pow2Mono(k + 1, s);
    } else if s < k {
      Pow2Strict(s, k);
    }
  }

  lemma LeadingBitBelow(a: nat, s: nat, k: nat)
    requires Pow2(k) <= a < Pow2(s)
    ensures k < s
  {
    if k >= s {
      Pow2Mono(s, k);
    }
  }

  lemma ZeroExtends(narrow: Format, wide: Format)
    requires Comparable(wide, narrow)
    ensures Extended(narrow, wide, 0, 0) && Renormalizes(narrow, wide, 0)
  {
    hide Pow2;
    InfIsLarge(wide);
    InfIsLarge(narrow);
    MakeFields(0, 0, wide.sig);
    TargetSubnormal(wide, narrow, 0);
  }

  /** The pattern that extension makes of a whole pattern: the sign is put into its place, where
      the exponent may have put a one already. */
  ghost function ExtRep(narrow: Format, wide: Format, aRep: nat): int
    requires Comparable(wide, narrow)
  {
    var r := ExtAbs(narrow, wide, Low(aRep, narrow.bits - 1));
    if r < Pow2(wide.bits - 1) then r + Shr(aRep, narrow.bits - 1) * Pow2(wide.bits - 1) else r
  }

  lemma ExtRepFields(narrow: Format, wide: Format, aRep: nat)
    requires Comparable(wide, narrow) && aRep < Pow2(narrow.bits)
    ensures var r := ExtAbs(narrow, wide, Low(aRep, narrow.bits - 1));
            && 0 <= r && 0 <= ExtRep(narrow, wide, aRep) < Pow2(wide.bits)
            && Low(ExtRep(narrow, wide, aRep), wide.bits - 1) == Low(r, wide.bits - 1)
            && (r < Pow2(wide.bits - 1) ==>
                  Shr(ExtRep(narrow, wide, aRep), wide.bits - 1) == Shr(aRep, narrow.bits - 1))
  {
    hide Shr; hide Low; hide Extended; hide Pow2; hide Renormalizes; hide ExtAbs;
    var a := Low(aRep, narrow.bits - 1);
    ExtendExactly(narrow, wide, a);
    SignBit(aRep, narrow.bits);
    var r := ExtAbs(narrow, wide, a);
    if r < Pow2(wide.bits - 1) {
      PutSign(Shr(aRep, narrow.bits - 1), r, wide.bits);
    }
  }

  /** The whole conversion: numbers keep their sign and value and NaNs their payload exactly
      when the number can be renormalized. */
  method Extend(narrow: Format, wide: Format, aRep: nat) returns (result: nat)
    requires Comparable(wide, narrow) && narrow.bits <= 32 && aRep < Pow2(narrow.bits)
    ensures result == ExtRep(narrow, wide, aRep) && result < Pow2(wide.bits)
    ensures Renormalizes(narrow, wide, Low(aRep, narrow.bits - 1)) ==>
          Shr(result, wide.bits - 1) == Shr(aRep, narrow.bits - 1)
    ensures Extended(narrow, wide, Low(aRep, narrow.bits - 1), Low(result, wide.bits - 1))
       <==> Renormalizes(narrow, wide, Low(aRep, narrow.bits - 1))
  {
    hide Shr; hide Low; hide Extended; hide Pow2; hide Renormalizes; hide ExtAbs;
    ExtRepFields(narrow, wide, aRep);
    ExtendExactly(narrow, wide, Low(aRep, narrow.bits - 1));
    var absResult := ExtendAbs(narrow, wide, Low(aRep, narrow.bits - 1));
    var sign := Shr(aRep, narrow.bits - 1);
    result := absResult;
    if absResult < Pow2(wide.bits - 1) {
      result := absResult + sign * Pow2(wide.bits - 1);
    }
  }
}
