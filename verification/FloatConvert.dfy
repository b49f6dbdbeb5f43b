/**
 Truncation on bit patterns, with the unsigned arithmetic of the code.
 */
module FloatConvert {
  import opened Bits
  import opened FloatFormat
  import opened FloatRound
  import opened FloatTruncate
  import opened FloatPromote
  import opened Wrappers

  // ----- unsigned arithmetic

  /** Subtraction in n-bit unsigned arithmetic. */
  function SubWrap(a: int, b: int, n: nat): (r: nat)
    ensures r < Pow2(n)
  {
    (a - b) % Pow2(n)
  }

  lemma SubWrapIs(a: int, b: int, n: nat)
    requires 0 - Pow2(n) <= a - b < Pow2(n)
    ensures SubWrap(a, b, n) == if a >= b then a - b else a - b + Pow2(n)
  {
    hide Pow2;
    if a >= b {
      DivModUnique(a - b, Pow2(n), 0, a - b);
    } else {
      DivModUnique(a - b, Pow2(n), -1, a - b + Pow2(n));
    }
  }

  /** The comparison of the two differences: in n-bit unsigned arithmetic, or in that of int if
      the word is narrower. */
  predicate DifferencesOrdered(a: nat, lo: nat, hi: nat, n: nat) {
    if n < INT_BITS then a - lo < a - hi else SubWrap(a, lo, n) < SubWrap(a, hi, n)
  }

  /** Comparing two wrapped differences tests for a range; promoted ones never wrap, so that the
      test holds for no number at all. */
  lemma WrapIsRange(a: nat, lo: nat, hi: nat, n: nat)
    requires a < Pow2(n) && lo < hi < Pow2(n)
    ensures DifferencesOrdered(a, lo, hi, n) <==> n >= INT_BITS && lo <= a < hi
  {
    hide SubWrap; hide Pow2;
    SubWrapIs(a, lo, n);
    SubWrapIs(a, hi, n);
  }

  lemma WrapLate(x: nat, y: nat, n: nat)
    requires 0 <= x - y < Pow2(n)
    ensures SubWrap(Low(x, n), y, n) == x - y
  {
    hide Pow2;
    var p := Pow2(n);
    Fields(x, n);
    var k := 0 - Shr(x, n);
    assert Low(x, n) - y == k * p + (x - y);
    DivModUnique(Low(x, n) - y, p, k, x - y);
  }

  /** Shifting left so far that only the low bits remain tests whether any is set. */
  lemma StickyTest(m: nat, shift: nat, n: nat)
    requires shift <= n
    ensures m * Pow2(n - shift) >= 0
    ensures Low(m * Pow2(n - shift), n) != 0 <==> Low(m, shift) != 0
  {
    hide Pow2;
    var p, q := Pow2(shift), Pow2(n - shift);
    Pow2Add(shift, n - shift);
    Fields(m, shift);
    var h, l := Shr(m, shift), Low(m, shift);
    MulMono(0, m, q);
    MulDist(h * p, l, q);
    MulAssoc(h, p, q);
    MulMono(0, l, q);
    MulMono(l + 1, p, q);
    MulDist(l, 1, q);
    MakeFields(h, l * q, n);
    if l > 0 {
      MulMono(1, l, q);
    }
  }

  // ----- truncation

  method RoundStep(r0: nat, roundBits: nat, halfway: nat) returns (r: nat)
    ensures r == if roundBits > halfway then r0 + 1 else if roundBits == halfway then r0 + r0 % 2 else r0
  {
    r := r0;
    if roundBits > halfway {
      r := r + 1;
    } else if roundBits == halfway {
      r := r + r % 2;
    }
  }

  lemma NormalIs(src: Format, dst: Format, a: nat)
    requires Comparable(src, dst) && Underflow(src, dst) <= a < Overflow(src, dst)
    ensures var d, r0 := Dropped(src, dst), Rebiased(src, dst, a);
            && 0 <= r0 < dst.Inf() < Pow2(dst.bits)
            && TruncAbs(src, dst, a) ==
               if Low(a, d) > Pow2(d - 1) then r0 + 1 else if Low(a, d) == Pow2(d - 1) then r0 + r0 % 2 else r0
  {
    BelowUnderflow(src, dst, a);
    BelowOverflow(src, dst, a);
    NormalPattern(src, dst, a);
    InfFits(dst);
    hide Pow2; hide Shr; hide Low; hide BiasDiff; hide SmallResult; hide Rebiased; hide Underflow; hide Overflow;
  }

  method TruncateNormal(src: Format, dst: Format, a: nat) returns (r: nat)
    requires Comparable(src, dst) && Underflow(src, dst) <= a < Overflow(src, dst)
    ensures r == TruncAbs(src, dst, a) <= dst.Inf()
  {
    hide Pow2; hide Shr; hide Low; hide BiasDiff; hide SubWrap; hide TruncAbs; hide Underflow; hide Overflow;
    var d := Dropped(src, dst);
    NormalIs(src, dst, a);
    MulMono(0, BiasDiff(src, dst), Pow2(dst.sig));
    WrapLate(Shr(a, d), BiasDiff(src, dst) * Pow2(dst.sig), dst.bits);
    r := Low(Shr(a, d), dst.bits);
    r := SubWrap(r, BiasDiff(src, dst) * Pow2(dst.sig), dst.bits);
    r := RoundStep(r, Low(a, d), Pow2(d - 1));
  }

  /** The last branch.  A negative shift and the overflow of an int are undefined. */
  method TruncateSmall(src: Format, dst: Format, a: nat) returns (r: Option<nat>)
    requires Comparable(src, dst) && a < Overflow(src, dst) && (src.bits >= INT_BITS ==> a < Underflow(src, dst))
    ensures r.Some? <==> Defined(src, dst, a)
    ensures r.Some? ==> r.value == WordAbs(src, dst, a)
  {
    hide Pow2; hide Shr; hide Low; hide BiasDiff; hide Overflow; hide Underflow; hide WordAbs; hide RoundAt;
    hide Defined; hide Comparable;
    FormatsDiffer(src, dst);
    SmallCases(src, dst, a);
    var d := Dropped(src, dst);
    var aExp := Shr(a, src.sig);
    var shift := BiasDiff(src, dst) - aExp + 1;
    var significand := Low(a, src.sig) + Pow2(src.sig);
    if shift > src.sig {
      return Some(0);
    }
    if shift < 0 {
      return None;
    }
    var sticky := StickyBit(significand, shift, src.bits);
    if sticky.None? {
      return None;
    }
    var denormalized := Shr(significand, shift);
    if sticky.value && denormalized % 2 == 0 {
      denormalized := denormalized + 1;
    }
    var rounded := RoundDropping(denormalized, d);
    r := Some(rounded);
  }

  lemma FormatsDiffer(src: Format, dst: Format)
    requires Comparable(src, dst)
    ensures src.Valid() && dst.Valid() && Dropped(src, dst) >= 2 && src.sig < src.bits
  {
  }

  /** What the last branch has to do, case by case. */
  lemma SmallCases(src: Format, dst: Format, a: nat)
    requires Comparable(src, dst) && a < Overflow(src, dst) && (src.bits >= INT_BITS ==> a < Underflow(src, dst))
    ensures var m, shift := Significand(src, a), Shift(src, dst, a);
            && (shift < 0 ==> !Defined(src, dst, a))
            && (shift > src.sig ==> Defined(src, dst, a) && WordAbs(src, dst, a) == 0)
            && (0 <= shift <= src.sig ==>
                  && (Defined(src, dst, a) <==>
                      src.bits >= INT_BITS || m * Pow2(src.bits - shift) < Pow2(INT_BITS - 1))
                  && WordAbs(src, dst, a) ==
                     RoundAt(if src.bits < INT_BITS then OddShift(m, shift) else StickyShift(m, shift), Dropped(src, dst)))
  {
    hide Pow2; hide Shr; hide Low; hide BiasDiff; hide Overflow; hide Underflow; hide TruncAbs; hide RoundAt;
    hide TieDown; hide Significand; hide OddShift; hide StickyShift;
    BelowUnderflow(src, dst, a);
    if 0 <= Shift(src, dst, a) {
      ShiftRounds(src, dst, a);
      SmallIs(src, dst, a);
    }
  }

  lemma SmallIs(src: Format, dst: Format, a: nat)
    requires Comparable(src, dst) && 0 <= Shift(src, dst, a)
    ensures var m, shift := Significand(src, a), Shift(src, dst, a);
            WordAbs(src, dst, a) ==
            RoundAt(if src.bits < INT_BITS then OddShift(m, shift) else StickyShift(m, shift), Dropped(src, dst))
  {
    hide Pow2; hide Shr; hide Low; hide BiasDiff; hide Overflow; hide TruncAbs; hide RoundAt; hide TieDown;
    hide Significand; hide OddShift; hide StickyShift;
    ShiftRounds(src, dst, a);
    StickyRounds(Significand(src, a), Shift(src, dst, a), Dropped(src, dst));
    OddRounds(Significand(src, a), Shift(src, dst, a), Dropped(src, dst));
  }

  method RoundDropping(m: nat, d: nat) returns (r: nat)
    requires d >= 1
    ensures r == RoundAt(m, d)
  {
    hide Pow2; hide Shr; hide Low;
    r := Shr(m, d);
    r := RoundStep(r, Low(m, d), Pow2(d - 1));
  }

  /** Whether any bit stays when the significand is shifted to the left, in words of the given
      width: all of them do if the word is promoted to int. */
  method StickyBit(significand: nat, shift: nat, bits: nat) returns (sticky: Option<bool>)
    requires 0 < significand && shift <= bits
    ensures sticky.None? <==> bits < INT_BITS && significand * Pow2(bits - shift) >= Pow2(INT_BITS - 1)
    ensures sticky.Some? ==> sticky.value == (bits < INT_BITS || Low(significand, shift) != 0)
  {
    hide Pow2; hide Low;
    StickyTest(significand, shift, bits);
    MulMono(1, significand, Pow2(bits - shift));
    var shifted := significand * Pow2(bits - shift);
    if bits >= INT_BITS {
      sticky := Some(Low(shifted, bits) != 0);
    } else if shifted < Pow2(INT_BITS - 1) {
      sticky := Some(shifted != 0);
    } else {
      sticky := None;
    }
  }

  /** The whole case distinction. */
  method TruncateAbs(src: Format, dst: Format, a: nat) returns (r: Option<nat>)
    requires Comparable(src, dst) && a < Pow2(src.bits - 1)
    ensures r.Some? <==> Defined(src, dst, a)
    ensures r.Some? ==> r.value == WordAbs(src, dst, a) && r.value < Pow2(dst.bits - 1)
    ensures r.Some? ==>
          (Truncated(src, dst, a, r.value) <==> Kept(src, dst, a) && !RaisesTie(src, dst, a))
  {
    hide Pow2; hide Shr; hide Low; hide NearestEven; hide Mag; hide BiasDiff; hide Underflow; hide Overflow;
    hide SmallResult; hide Truncated; hide Kept; hide RoundAt; hide Rebiased; hide TieDown;
    WordExactly(src, dst, a);
    RangesOrdered(src, dst);
    InfFits(src);
    InfFits(dst);
    WordAbsFits(src, dst, a);
    WrapIsRange(a, Underflow(src, dst), Overflow(src, dst), src.bits);
    var value: nat;
    if DifferencesOrdered(a, Underflow(src, dst), Overflow(src, dst), src.bits) {
      value := TruncateNormal(src, dst, a);
    } else if a > src.Inf() {
      PayloadFits(src, dst, a);
      value := dst.Inf();
      value := value + Pow2(dst.sig - 1);
      value := value + Shr(Low(a, src.sig - 1), Dropped(src, dst));
    } else if a >= Overflow(src, dst) {
      value := dst.Inf();
    } else {
      hide TruncAbs;
      r := TruncateSmall(src, dst, a);
      return;
    }
    r := Some(value);
  }

  /** Zero stays zero, and the two zeros stay equal, exactly when the exponent range is narrower
      by at least the target fraction, or by more in words narrower than int, where a tie is
      raised. */
  lemma ZeroKept(src: Format, dst: Format)
    requires Comparable(src, dst)
    ensures WordAbs(src, dst, 0) == 0 <==>
          BiasDiff(src, dst) >= dst.sig + (if src.bits < INT_BITS then 1 else 0)
  {
    hide Pow2; hide Shr; hide Low; hide RoundAt; hide TruncAbs; hide Overflow; hide TieDown; hide BiasDiff;
    MakeFields(0, 0, src.sig);
    ShiftRounds(src, dst, 0);
    ZeroTruncated(src, dst);
    var w, p := Scale(src, dst), Pow2(src.sig);
    if w > src.sig {
      Pow2Strict(src.sig, w);
      NoTie(p, w + 1);
    } else if w == src.sig {
      PowerTie(w);
    }
  }

  lemma PowerTie(w: nat)
    ensures TieDown(Pow2(w), w + 1)
  {
    Doubles(w + 1);
    hide Pow2; hide Shr; hide Low;
    MakeFields(0, Pow2(w), w + 1);
  }

  lemma ZeroTruncated(src: Format, dst: Format)
    requires Comparable(src, dst)
    ensures TruncAbs(src, dst, 0) >= 0
    ensures TruncAbs(src, dst, 0) == 0 <==> BiasDiff(src, dst) >= dst.sig
  {
    hide Pow2; hide Shr; hide Low; hide SmallResult; hide RoundAt; hide Mag;
    MakeFields(0, 0, src.sig);
    BelowUnderflow(src, dst, 0);
    RangesOrdered(src, dst);
    SmallIsRound(src, dst, 0);
    NextExponent(src, 0);
    var w, p := Scale(src, dst), Pow2(src.sig);
    OneUnit(src.sig);
    if w > src.sig {
      Pow2Strict(src.sig, w);
      RoundsToZero(p, w + 1);
    } else if w == src.sig {
      Doubles(w + 1);
      RoundIs(p, w + 1, 0);
    } else {
      Pow2Strict(w, src.sig);
      RoundsUp(p, w + 1);
    }
  }

  lemma OneUnit(sig: nat)
    ensures 1 * Pow2(sig) + 0 == Pow2(sig) && (Pow2(sig) + 0) * Pow2(0) == Pow2(sig)
  {
  }

  /** The two targets that single precision is truncated to: half precision is narrow enough. */
  lemma SingleToHalf()
    ensures Narrows(Format(32, 23), Format(16, 10)) && Comparable(Format(32, 23), Format(16, 7))
        && !Narrows(Format(32, 23), Format(16, 7))
  {
    Pow2Values();
  }

  /** The other one is not: zero becomes the pattern 0x40, which is 64 times the smallest
      number. */
  lemma ZeroToBrainFloat()
    ensures Comparable(Format(32, 23), Format(16, 7)) && SmallResult(Format(32, 23), Format(16, 7), 0) == 0x40
    ensures !NearestEven(Format(32, 23), Format(16, 7), Mag(Format(32, 23), 0), 0x40)
  {
    hide Pow2; hide Shr; hide Low; hide NearestEven; hide Mag; hide SmallResult; hide Comparable; hide BiasDiff;
    hide RoundAt;
    var src, dst := Format(32, 23), Format(16, 7);
    SingleToHalf();
    BrainValues();
    MakeFields(0, 0, 23);
    MisreadResult(src, dst, 0);
    SubnormalNearest(src, dst, 0);
    RoundsToZero(0, 16);
    if NearestEven(src, dst, Mag(src, 0), 0x40) {
      NearestUnique(src, dst, Mag(src, 0), 0x40, 0);
    }
  }

  lemma BrainValues()
    ensures var src, dst := Format(32, 23), Format(16, 7);
            Comparable(src, dst) && BiasDiff(src, dst) == 0 && Scale(src, dst) == 16
    ensures RoundAt(Pow2(23), 17) == 0x40
  {
    hide RoundAt; hide Pow2;
    SingleToHalf();
    Pow2Values();
    Pow2Add(6, 17);
    RoundsExact(64, 17);
  }

  lemma RoundsExact(q: nat, w: nat)
    requires w >= 1
    ensures q * Pow2(w) >= 0 && RoundAt(q * Pow2(w), w) == q
  {
    hide Pow2; hide Shr; hide Low;
    MakeFields(q, 0, w);
  }

  lemma PayloadFits(src: Format, dst: Format, a: nat)
    requires Comparable(src, dst)
    ensures Shr(Low(a, src.sig - 1), Dropped(src, dst)) < Pow2(dst.sig - 1)
    ensures Pow2(dst.sig) == 2 * Pow2(dst.sig - 1)
  {
    SignificandBound(Low(a, src.sig - 1), src.sig - 2, Dropped(src, dst), dst.sig - 1);
  }

  /** The pattern that truncation makes of a whole pattern: the sign is moved. */
  ghost function TruncRep(src: Format, dst: Format, aRep: nat): int
    requires Comparable(src, dst)
  {
    WordAbs(src, dst, Low(aRep, src.bits - 1)) + Shr(aRep, src.bits - 1) * Pow2(dst.bits - 1)
  }

  /** The whole conversion.  Where it is defined, the sign is kept, and so is the promise exactly
      when the number is not misread or misread without harm, and is not a tie that is raised. */
  method Truncate(src: Format, dst: Format, aRep: nat) returns (result: Option<nat>)
    requires Comparable(src, dst) && aRep < Pow2(src.bits)
    ensures result.Some? <==> Defined(src, dst, Low(aRep, src.bits - 1))
    ensures result.Some? ==> result.value == TruncRep(src, dst, aRep) && result.value < Pow2(dst.bits)
    ensures result.Some? ==> Shr(result.value, dst.bits - 1) == Shr(aRep, src.bits - 1)
    ensures var a := Low(aRep, src.bits - 1);
            result.Some? ==> (Truncated(src, dst, a, Low(result.value, dst.bits - 1)) <==>
              Kept(src, dst, a) && !RaisesTie(src, dst, a))
  {
    hide Shr; hide Low; hide Truncated; hide Pow2; hide Kept; hide WordAbs; hide Defined; hide RaisesTie;
    SignBit(aRep, src.bits);
    var absResult := TruncateAbs(src, dst, Low(aRep, src.bits - 1));
    if absResult.None? {
      return None;
    }
    var sign := Shr(aRep, src.bits - 1);
    PutSign(sign, absResult.value, dst.bits);
    result := Some(absResult.value + sign * Pow2(dst.bits - 1));
  }

  /** Patterns in the order of the numbers they stand for, with the negative zero first. */
  ghost function Signed(f: Format, x: nat): int
    requires f.Valid()
  {
    if Shr(x, f.bits - 1) == 0 then Low(x, f.bits - 1) else -1 - Low(x, f.bits - 1)
  }

  /** A result fits the target format. */
  lemma WordAbsFits(src: Format, dst: Format, a: nat)
    requires Comparable(src, dst)
    ensures 0 <= WordAbs(src, dst, a) < Pow2(dst.bits - 1)
  {
    hide Shr; hide Low; hide Pow2;
    InfFits(dst);
    if a <= src.Inf() {
      hide WordAbs;
      WordFits(src, dst, a);
    } else {
      hide Overflow;
      RangesOrdered(src, dst);
      PayloadFits(src, dst, a);
    }
  }

  lemma TruncRepFields(src: Format, dst: Format, x: nat)
    requires Comparable(src, dst) && x < Pow2(src.bits) && Low(x, src.bits - 1) <= src.Inf()
    ensures var a := Low(x, src.bits - 1);
            && 0 <= WordAbs(src, dst, a) <= dst.Inf()
            && 0 <= TruncRep(src, dst, x) < Pow2(dst.bits)
            && Shr(TruncRep(src, dst, x), dst.bits - 1) == Shr(x, src.bits - 1)
            && Low(TruncRep(src, dst, x), dst.bits - 1) == WordAbs(src, dst, a)
  {
    hide WordAbs; hide Shr; hide Low; hide Pow2;
    var a := Low(x, src.bits - 1);
    WordFits(src, dst, a);
    InfFits(dst);
    SignBit(x, src.bits);
    PutSign(Shr(x, src.bits - 1), WordAbs(src, dst, a), dst.bits);
  }

  /** Where it is defined, truncation is monotone on the numbers of both signs, for every pair of
      formats, misread numbers included. */
  lemma TruncationMonotone(src: Format, dst: Format, x: nat, y: nat)
    requires Comparable(src, dst) && x < Pow2(src.bits) && y < Pow2(src.bits)
    requires Low(x, src.bits - 1) <= src.Inf() && Low(y, src.bits - 1) <= src.Inf()
    requires Defined(src, dst, Low(x, src.bits - 1)) && Defined(src, dst, Low(y, src.bits - 1))
    requires Signed(src, x) <= Signed(src, y)
    ensures TruncRep(src, dst, x) >= 0 && TruncRep(src, dst, y) >= 0
    ensures Signed(dst, TruncRep(src, dst, x)) <= Signed(dst, TruncRep(src, dst, y))
  {
    hide WordAbs; hide TruncRep; hide Shr; hide Low; hide Pow2; hide Defined;
    TruncRepFields(src, dst, x);
    TruncRepFields(src, dst, y);
    var a, b := Low(x, src.bits - 1), Low(y, src.bits - 1);
    if a <= b {
      WordMonotone(src, dst, a, b);
    } else {
      WordMonotone(src, dst, b, a);
    }
  }

  lemma SignBit(a: nat, n: nat)
    requires n >= 1 && a < Pow2(n)
    ensures Shr(a, n - 1) <= 1
  {
    assert Pow2(n) == 2 * Pow2(n - 1);
    hide Pow2;
    DivBound(a, Pow2(n - 1), 2);
  }

  lemma PutSign(sign: nat, r: nat, n: nat)
    requires n >= 1 && sign <= 1 && r < Pow2(n - 1)
    ensures 0 <= r + sign * Pow2(n - 1) < Pow2(n)
    ensures Shr(r + sign * Pow2(n - 1), n - 1) == sign && Low(r + sign * Pow2(n - 1), n - 1) == r
  {
    MakeFields(sign, r, n - 1);
    assert Pow2(n) == 2 * Pow2(n - 1);
  }

}
