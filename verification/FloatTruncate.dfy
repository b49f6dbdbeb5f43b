/**
 Truncation to a narrower format: the four ranges of the input and the arithmetic of each.
 */
module FloatTruncate {
  import opened Bits
  import opened FloatFormat
  import opened FloatRound

  function Dropped(src: Format, dst: Format): nat
    requires Comparable(src, dst)
  {
    src.sig - dst.sig
  }

  /** The first pattern that is a normal number of the target format. */
  function Underflow(src: Format, dst: Format): nat
    requires Comparable(src, dst)
  {
    MulMono(0, BiasDiff(src, dst) + 1, Pow2(src.sig));
    (BiasDiff(src, dst) + 1) * Pow2(src.sig)
  }

  /** The first pattern too large for the target format. */
  function Overflow(src: Format, dst: Format): nat
    requires Comparable(src, dst)
  {
    MulMono(0, BiasDiff(src, dst) + dst.InfExp(), Pow2(src.sig));
    (BiasDiff(src, dst) + dst.InfExp()) * Pow2(src.sig)
  }

  lemma ScaleUp(x: nat, e: nat, b: nat, d: nat)
    ensures x * Pow2(e) * Pow2(b + d) == x * Pow2(d) * Pow2(e + b)
  {
    Pow2Add(b, d);
    Pow2Add(e, b);
    hide Pow2;
    var p, q, r := Pow2(e), Pow2(b), Pow2(d);
    MulAssoc(x, p, q * r);
    MulAssoc(p, q, r);
    MulAssoc(x, p * q, r);
  }

  /** Numbers of the target format with exponent field e, and their successors. */
  lemma TargetNormal(src: Format, dst: Format, e: nat, m: nat)
    requires Comparable(src, dst) && e >= 1 && m < Pow2(dst.sig)
    ensures e * Pow2(dst.sig) + m >= 0
    ensures var r := e * Pow2(dst.sig) + m;
            var d, b := Dropped(src, dst), BiasDiff(src, dst);
            && Target(src, dst, r) == (Pow2(dst.sig) + m) * Pow2(d) * Pow2(e - 1 + b)
            && Target(src, dst, r + 1) == (Pow2(dst.sig) + m + 1) * Pow2(d) * Pow2(e - 1 + b)
  {
    hide Pow2; hide BiasDiff; hide Shr; hide Low;
    MakeFields(e, m, dst.sig);
    var r := e * Pow2(dst.sig) + m;
    var p := Pow2(dst.sig);
    MagNext(dst, r);
    MulDist(p + m, 1, Pow2(e - 1));
    assert Mag(dst, r) == (p + m) * Pow2(e - 1) && Mag(dst, r + 1) == (p + m + 1) * Pow2(e - 1);
    ScaleUp(p + m, e - 1, BiasDiff(src, dst), Dropped(src, dst));
    ScaleUp(p + m + 1, e - 1, BiasDiff(src, dst), Dropped(src, dst));
  }

  /** The two highest parts of a pattern of the wider format. */
  lemma SplitPattern(a: nat, sig: nat, d: nat)
    requires d <= sig
    ensures Shr(a, d) == Shr(a, sig) * Pow2(sig - d) + Shr(Low(a, sig), d)
    ensures Low(a, d) == Low(Low(a, sig), d)
    ensures Shr(Low(a, sig), d) < Pow2(sig - d)
    ensures Shr(Pow2(sig) + Low(a, sig), d) == Pow2(sig - d) + Shr(Low(a, sig), d)
    ensures Low(Pow2(sig) + Low(a, sig), d) == Low(Low(a, sig), d)
  {
    var e, f, k := Shr(a, sig), Low(a, sig), sig - d;
    Fields(a, sig);
    Fields(f, d);
    Pow2Add(k, d);
    hide Pow2; hide Shr; hide Low;
    var g, l := Shr(f, d), Low(f, d);
    assert g < Pow2(k) by { if g >= Pow2(k) { MulMono(Pow2(k), g, Pow2(d)); } }
    MulAssoc(e, Pow2(k), Pow2(d));
    MulDist(e * Pow2(k), g, Pow2(d));
    MulMono(0, e, Pow2(k));
    MakeFields(e * Pow2(k) + g, l, d);
    MulDist(Pow2(k), g, Pow2(d));
    MakeFields(Pow2(k) + g, l, d);
  }

  lemma EvenShift(e: nat, k: nat, g: nat)
    requires k >= 1
    ensures (e * Pow2(k) + g) % 2 == g % 2
  {
    var h := e * Pow2(k - 1);
    assert e * Pow2(k) == h * 2 by { MulAssoc(e, Pow2(k - 1), 2); }
    hide Pow2;
    DivModUnique(h * 2 + g, 2, h + g / 2, g % 2);
  }

  /** The pattern that results from shifting and rebiasing. */
  function Rebiased(src: Format, dst: Format, a: nat): int
    requires Comparable(src, dst)
  {
    Shr(a, Dropped(src, dst)) - BiasDiff(src, dst) * Pow2(dst.sig)
  }

  lemma NormalPattern(src: Format, dst: Format, a: nat)
    requires Comparable(src, dst) && BiasDiff(src, dst) + 1 <= Shr(a, src.sig) < BiasDiff(src, dst) + dst.InfExp()
    ensures var d, g := Dropped(src, dst), Shr(Low(a, src.sig), Dropped(src, dst));
            var r0, m := Rebiased(src, dst, a), Pow2(src.sig) + Low(a, src.sig);
            && g < Pow2(dst.sig) && r0 == (Shr(a, src.sig) - BiasDiff(src, dst)) * Pow2(dst.sig) + g
            && 0 <= r0 < dst.Inf() && r0 % 2 == Shr(a, d) % 2 == Shr(m, d) % 2
            && Shr(m, d) == Pow2(dst.sig) + g && Low(m, d) == Low(a, d)
  {
    var d, b, k := Dropped(src, dst), BiasDiff(src, dst), dst.sig;
    var e, g := Shr(a, src.sig), Shr(Low(a, src.sig), d);
    hide Pow2; hide Shr; hide Low; hide BiasDiff;
    SplitPattern(a, src.sig, d);
    MulDist(b, e - b, Pow2(k));
    MulMono(0, e - b, Pow2(k));
    MulMono(e - b + 1, dst.InfExp(), Pow2(k));
    MulDist(e - b, 1, Pow2(k));
    EvenShift(e, k, g);
    EvenShift(e - b, k, g);
    EvenShift(1, k, g);
  }

  /** In the normal range: shift, rebias, round. */
  lemma NormalRounds(src: Format, dst: Format, a: nat)
    requires Comparable(src, dst) && BiasDiff(src, dst) + 1 <= Shr(a, src.sig) < BiasDiff(src, dst) + dst.InfExp()
    ensures var d, r0 := Dropped(src, dst), Rebiased(src, dst, a);
            && 0 <= r0 < dst.Inf() && r0 % 2 == Shr(a, d) % 2
            && NearestEven(src, dst, Mag(src, a), r0 + (RoundAt(a, d) - Shr(a, d)))
  {
    var d, e := Dropped(src, dst), Shr(a, src.sig);
    var m := Pow2(src.sig) + Low(a, src.sig);
    assert Mag(src, a) == m * Pow2(e - 1);
    hide Pow2; hide Shr; hide Low; hide Target; hide NearestEven; hide Mag; hide BiasDiff; hide Rebiased;
    NormalPattern(src, dst, a);
    var r0 := Rebiased(src, dst, a);
    TargetNormal(src, dst, e - BiasDiff(src, dst), Shr(Low(a, src.sig), d));
    DropRounds(src, dst, m, d, e - 1, r0, r0 + (RoundAt(m, d) - Shr(m, d)));
  }

  // ----- below the normal range

  /** Right shift that keeps in the lowest bit whether any one was shifted out. */
  function StickyShift(m: nat, shift: nat): nat {
    var q := Shr(m, shift);
    if Low(m, shift) != 0 && q % 2 == 0 then q + 1 else q
  }

  lemma SplitTwice(m: nat, shift: nat, d: nat)
    ensures Shr(Shr(m, shift), d) == Shr(m, shift + d)
    ensures Low(m, shift + d) == Low(Shr(m, shift), d) * Pow2(shift) + Low(m, shift)
  {
    Split(m, shift, d);
  }

  lemma HalfPowers(shift: nat, d: nat)
    requires d >= 2
    ensures Pow2(d) == 2 * Pow2(d - 1) && Pow2(d - 1) % 2 == 0
    ensures Pow2(shift + d - 1) == Pow2(d - 1) * Pow2(shift)
  {
    Pow2Add(d - 1, shift);
    assert Pow2(d - 1) == 2 * Pow2(d - 2);
  }

  /** With two bits to drop, the sticky bit never changes how the rest rounds. */
  lemma StickyRounds(m: nat, shift: nat, d: nat)
    requires d >= 2
    ensures RoundAt(StickyShift(m, shift), d) == RoundAt(m, shift + d)
  {
    hide Pow2; hide Low; hide Shr;
    var q, low, p, half := Shr(m, shift), Low(m, shift), Pow2(shift), Pow2(d - 1);
    var q', rem := Shr(q, d), Low(q, d);
    HalfPowers(shift, d);
    SplitTwice(m, shift, d);
    Fields(q, d);
    EvenShift(q', d, rem);
    StickyParts(q, q', rem, d, half);
    StickyCompare(rem, half, p, low);
  }

  lemma StickyParts(q: nat, q': nat, rem: nat, d: nat, half: nat)
    requires d >= 2 && Pow2(d) == 2 * half && q == q' * (2 * half) + rem && rem < 2 * half
    ensures Shr(q, d) == q' && Low(q, d) == rem
    ensures rem + 1 < 2 * half ==> Shr(q + 1, d) == q' && Low(q + 1, d) == rem + 1
  {
    MakeFields(q', rem, d);
    if rem + 1 < 2 * half {
      MakeFields(q', rem + 1, d);
    }
  }

  lemma StickyCompare(rem: nat, half: nat, p: nat, low: nat)
    requires low < p
    ensures rem > half ==> rem * p + low > half * p
    ensures rem < half ==> rem * p + low < half * p
    ensures rem == half ==> rem * p + low == half * p + low
  {
    if rem > half {
      MulMono(half + 1, rem, p);
      MulDist(half, 1, p);
    } else if rem < half {
      MulMono(rem + 1, half, p);
      MulDist(rem, 1, p);
    }
  }

  /** Target numbers with exponent field 0, and the first one above them. */
  lemma TargetSubnormal(src: Format, dst: Format, r: nat)
    requires Comparable(src, dst) && r < Pow2(dst.sig)
    ensures Target(src, dst, r) == r * Pow2(Scale(src, dst))
    ensures Target(src, dst, r + 1) == (r + 1) * Pow2(Scale(src, dst))
  {
    hide Pow2; hide Shr; hide Low; hide Scale;
    MakeFields(0, r, dst.sig);
    MagNext(dst, r);
  }

  lemma InfIsLarge(f: Format)
    requires f.Valid()
    ensures Pow2(f.sig) <= f.Inf() && f.InfExp() >= 3
  {
    Pow2Mono(2, f.ExpBits());
    Pow2Values();
    hide Pow2;
    MulMono(1, f.InfExp(), Pow2(f.sig));
  }

  lemma ShiftPowers(x: nat, w: nat, s: nat)
    ensures x * Pow2(w + s) == x * Pow2(w) * Pow2(s)
  {
    Pow2Add(w, s);
    hide Pow2;
    MulAssoc(x, Pow2(w), Pow2(s));
  }

  lemma SignificandBound(m: nat, sig: nat, w: nat, k: nat)
    requires m < Pow2(sig + 1) && sig + 1 <= w + k
    ensures Shr(m, w) < Pow2(k)
  {
    Pow2Mono(sig + 1, w + k);
    Pow2Add(k, w);
    hide Pow2;
    Fields(m, w);
    if Shr(m, w) >= Pow2(k) {
      MulMono(Pow2(k), Shr(m, w), Pow2(w));
    }
  }

  /** Below the normal range: shift the significand with its leading one, round. */
  lemma SubnormalRounds(src: Format, dst: Format, a: nat, shift: nat)
    requires Comparable(src, dst) && 1 <= Shr(a, src.sig) <= BiasDiff(src, dst)
    requires shift == BiasDiff(src, dst) - Shr(a, src.sig) + 1 <= src.sig
    ensures var m := Pow2(src.sig) + Low(a, src.sig);
            var r := RoundAt(StickyShift(m, shift), Dropped(src, dst));
            NearestEven(src, dst, Mag(src, a), r)
  {
    var d, e, w := Dropped(src, dst), Shr(a, src.sig), shift + Dropped(src, dst);
    var m := Pow2(src.sig) + Low(a, src.sig);
    assert Mag(src, a) == m * Pow2(e - 1);
    assert m < Pow2(src.sig + 1);
    hide Pow2; hide Shr; hide Low; hide Target; hide NearestEven; hide Mag; hide BiasDiff; hide StickyShift;
    var r0 := Shr(m, w);
    SignificandBound(m, src.sig, w, dst.sig);
    InfIsLarge(dst);
    StickyRounds(m, shift, d);
    TargetSubnormal(src, dst, r0);
    assert Scale(src, dst) == w + (e - 1);
    ShiftPowers(r0, w, e - 1);
    ShiftPowers(r0 + 1, w, e - 1);
    DropRounds(src, dst, m, w, e - 1, r0, RoundAt(m, w));
  }

  lemma MagBelow(src: Format, a: nat)
    ensures Mag(src, a) < Pow2(src.sig + Shr(a, src.sig))
  {
    var e, f := Shr(a, src.sig), Low(a, src.sig);
    if e > 0 {
      Pow2Add(src.sig + 1, e - 1);
      var p, q := Pow2(src.sig), Pow2(e - 1);
      assert Pow2(src.sig + 1) == 2 * p;
      hide Pow2;
      MulMono(p + f + 1, 2 * p, q);
      MulDist(p + f, 1, q);
    }
  }

  /** So small that nothing but zero is near. */
  lemma TinyRounds(src: Format, dst: Format, a: nat)
    requires Comparable(src, dst) && Shr(a, src.sig) <= BiasDiff(src, dst)
    requires BiasDiff(src, dst) - Shr(a, src.sig) + 1 > src.sig
    ensures NearestEven(src, dst, Mag(src, a), 0)
  {
    MagBelow(src, a);
    Pow2Mono(src.sig + Shr(a, src.sig), BiasDiff(src, dst));
    Pow2Strict(BiasDiff(src, dst), Scale(src, dst));
    hide Pow2; hide Shr; hide Low; hide Target; hide NearestEven; hide Mag;
    InfIsLarge(dst);
    TargetSubnormal(src, dst, 0);
    RoundBetween(src, dst, Mag(src, a), 0, 0);
  }

  lemma MagPower(f: Format, e: nat)
    requires e >= 1
    ensures e * Pow2(f.sig) >= 0 && Mag(f, e * Pow2(f.sig)) == Pow2(f.sig + (e - 1))
  {
    MakeFields(e, 0, f.sig);
    Pow2Add(f.sig, e - 1);
    hide Pow2;
  }

  /** Too large for the target format. */
  lemma OverflowRounds(src: Format, dst: Format, a: nat)
    requires Comparable(src, dst) && a >= Overflow(src, dst)
    ensures NearestEven(src, dst, Mag(src, a), dst.Inf())
  {
    hide Pow2; hide Target; hide NearestEven; hide Mag;
    InfIsLarge(dst);
    var e := BiasDiff(src, dst) + dst.InfExp();
    MagPower(src, e);
    MagMono(src, Overflow(src, dst), a);
    InfTarget(src, dst);
    RoundOverflow(src, dst, Mag(src, a));
  }

  lemma InfTarget(src: Format, dst: Format)
    requires Comparable(src, dst)
    ensures Target(src, dst, dst.Inf()) == Pow2(src.sig + BiasDiff(src, dst) + dst.InfExp() - 1)
  {
    hide Pow2; hide Mag;
    InfIsLarge(dst);
    MagPower(dst, dst.InfExp());
    Pow2Add(dst.sig + (dst.InfExp() - 1), Scale(src, dst));
  }

  // ----- what becomes of numbers below the normal range

  /** The code takes every significand below the normal range to have a leading one. */
  ghost function SmallResult(src: Format, dst: Format, a: nat): nat
    requires Comparable(src, dst) && Shr(a, src.sig) <= BiasDiff(src, dst)
  {
    var shift := BiasDiff(src, dst) - Shr(a, src.sig) + 1;
    if shift > src.sig then 0 else RoundAt(StickyShift(Pow2(src.sig) + Low(a, src.sig), shift), Dropped(src, dst))
  }

  /** A subnormal number, which has no leading one, and which is not so small that it is
      treated as zero. */
  ghost predicate Misread(src: Format, dst: Format, a: nat)
    requires Comparable(src, dst)
  {
    Shr(a, src.sig) == 0 && BiasDiff(src, dst) < src.sig
  }

  /** A number that has its leading one is rounded to nearest. */
  lemma SmallRounds(src: Format, dst: Format, a: nat)
    requires Comparable(src, dst) && Shr(a, src.sig) <= BiasDiff(src, dst) && !Misread(src, dst, a)
    ensures NearestEven(src, dst, Mag(src, a), SmallResult(src, dst, a))
  {
    hide Pow2; hide Shr; hide Low; hide Target; hide NearestEven; hide Mag; hide StickyShift; hide RoundAt;
    var shift := BiasDiff(src, dst) - Shr(a, src.sig) + 1;
    if shift > src.sig {
      TinyRounds(src, dst, a);
    } else {
      SubnormalRounds(src, dst, a, shift);
    }
  }

  lemma SmallFits(src: Format, dst: Format, a: nat)
    requires Comparable(src, dst) && Shr(a, src.sig) <= BiasDiff(src, dst)
    ensures SmallResult(src, dst, a) <= Pow2(dst.sig)
  {
    var d := Dropped(src, dst);
    var shift := BiasDiff(src, dst) - Shr(a, src.sig) + 1;
    var m := Pow2(src.sig) + Low(a, src.sig);
    assert m < Pow2(src.sig + 1);
    hide Pow2; hide Shr; hide Low; hide StickyShift;
    if shift <= src.sig {
      StickyRounds(m, shift, d);
      SignificandBound(m, src.sig, shift + d, dst.sig);
    }
  }

  /** What a misread number becomes: half of its fraction with a leading one, rounded. */
  lemma MisreadResult(src: Format, dst: Format, a: nat)
    requires Comparable(src, dst) && Misread(src, dst, a)
    ensures SmallResult(src, dst, a) == RoundAt(Pow2(src.sig) + Low(a, src.sig), Scale(src, dst) + 1)
  {
    hide Pow2; hide Low; hide RoundAt; hide StickyShift; hide Shr;
    StickyRounds(Pow2(src.sig) + Low(a, src.sig), BiasDiff(src, dst) + 1, Dropped(src, dst));
  }

  /** What it should become. */
  lemma SubnormalNearest(src: Format, dst: Format, a: nat)
    requires Comparable(src, dst) && Shr(a, src.sig) == 0
    ensures NearestEven(src, dst, Mag(src, a), RoundAt(Low(a, src.sig), Scale(src, dst)))
  {
    var f, w := Low(a, src.sig), Scale(src, dst);
    assert Mag(src, a) == f;
    Pow2Mono(src.sig, w + dst.sig);
    Pow2Add(dst.sig, w);
    assert Pow2(0) == 1;
    hide Pow2; hide Target; hide NearestEven; hide Mag; hide BiasDiff;
    var r0 := Shr(f, w);
    DivBound(f, Pow2(w), Pow2(dst.sig));
    InfIsLarge(dst);
    TargetSubnormal(src, dst, r0);
    hide Shr; hide Low;
    DropRounds(src, dst, f, w, 0, r0, RoundAt(f, w));
  }

  lemma NearestUnique(src: Format, dst: Format, x: nat, r: nat, s: nat)
    requires Comparable(src, dst) && NearestEven(src, dst, x, r) && NearestEven(src, dst, x, s)
    ensures r == s
  {
    hide NearestEven;
    NearestMono(src, dst, x, x, r, s);
    NearestMono(src, dst, x, x, s, r);
  }

  lemma RoundsToZero(m: nat, w: nat)
    requires w >= 1 && m < Pow2(w - 1)
    ensures RoundAt(m, w) == 0
  {
    assert Pow2(w) == 2 * Pow2(w - 1);
    hide Pow2;
    MakeFields(0, m, w);
  }

  /** With a range of exponents that is so much narrower, a number that is misread becomes zero,
      and should. */
  lemma MisreadHarmless(src: Format, dst: Format, a: nat)
    requires Narrows(src, dst) && Misread(src, dst, a)
    ensures NearestEven(src, dst, Mag(src, a), SmallResult(src, dst, a))
  {
    var f, w := Low(a, src.sig), Scale(src, dst);
    Pow2Mono(src.sig + 1, w);
    Pow2Mono(src.sig, w - 1);
    assert Pow2(src.sig + 1) == 2 * Pow2(src.sig);
    hide Pow2; hide NearestEven; hide Low; hide Shr; hide Mag; hide SmallResult; hide RoundAt;
    MisreadResult(src, dst, a);
    SubnormalNearest(src, dst, a);
    RoundsToZero(f, w);
    RoundsToZero(Pow2(src.sig) + f, w + 1);
  }

  /** Otherwise the smallest number of all is misread as a number that is not near zero. */
  lemma SmallestMisread(src: Format, dst: Format)
    requires Comparable(src, dst) && !Narrows(src, dst)
    ensures Misread(src, dst, 1) && !NearestEven(src, dst, Mag(src, 1), SmallResult(src, dst, 1))
  {
    var p, w := Pow2(src.sig), Scale(src, dst);
    Pow2Mono(2, w);
    Pow2Mono(w, src.sig);
    Pow2Mono(1, src.sig);
    assert Pow2(1) == 2 && Pow2(2) == 4 && Pow2(w) == 2 * Pow2(w - 1) && Pow2(w + 1) == 2 * Pow2(w);
    hide Pow2; hide NearestEven; hide Mag; hide SmallResult; hide RoundAt;
    MakeFields(0, 1, src.sig);
    hide Shr; hide Low;
    MisreadResult(src, dst, 1);
    SubnormalNearest(src, dst, 1);
    RoundsToZero(1, w);
    RoundsUp(p + 1, w + 1);
    if NearestEven(src, dst, Mag(src, 1), SmallResult(src, dst, 1)) {
      NearestUnique(src, dst, Mag(src, 1), SmallResult(src, dst, 1), 0);
    }
  }

  lemma RoundsUp(m: nat, w: nat)
    requires w >= 1 && m > Pow2(w - 1)
    ensures RoundAt(m, w) > 0
  {
    Fields(m, w);
    hide Pow2;
  }

  // ----- which misread numbers are still rounded to nearest

  /** r units of 2^w are at most half a unit away from m. */
  ghost predicate Close(m: int, p: nat, r: nat) {
    2 * m <= 2 * (r * p) + p && 2 * (r * p) <= 2 * m + p
  }

  /** Rounding by quotient and remainder. */
  lemma RoundOf(m: nat, w: nat, q: nat, rem: nat)
    requires w >= 1 && rem < Pow2(w) && m == q * Pow2(w) + rem
    ensures Pow2(w) == 2 * Pow2(w - 1)
    ensures RoundAt(m, w) == if rem > Pow2(w - 1) then q + 1 else if rem == Pow2(w - 1) then q + q % 2 else q
  {
    Doubles(w);
    MakeFields(q, rem, w);
    hide Pow2; hide Shr; hide Low;
  }

  /** The nearest multiple of 2^w, the even one if there are two. */
  lemma RoundIs(m: nat, w: nat, r: nat)
    requires w >= 1 && Close(m, Pow2(w), r)
    requires 2 * m == 2 * (r * Pow2(w)) + Pow2(w) || 2 * (r * Pow2(w)) == 2 * m + Pow2(w) ==> r % 2 == 0
    ensures RoundAt(m, w) == r
  {
    Doubles(w);
    hide Pow2; hide RoundAt;
    var p := Pow2(w);
    var x := r * p;
    if x <= m {
      RoundOf(m, w, r, m - x);
    } else {
      assert r > 0;
      MulDist(r - 1, 1, p);
      RoundOf(m, w, r - 1, m - (x - p));
    }
  }

  /** Rounding moves by at most half a unit. */
  lemma RoundError(m: nat, w: nat)
    requires w >= 1
    ensures Close(m, Pow2(w), RoundAt(m, w))
  {
    hide Pow2; hide RoundAt; hide Shr; hide Low;
    Fields(m, w);
    var q, rem, p := Shr(m, w), Low(m, w), Pow2(w);
    RoundOf(m, w, q, rem);
    MulDist(q, 1, p);
    var x := q * p;
    if RoundAt(m, w) == q {
      assert 2 * m <= 2 * x + p;
    } else {
      assert RoundAt(m, w) == q + 1;
    }
  }

  /** Rounding n units less g, when n is even. */
  lemma RoundBelowEven(n: nat, g: nat, w: nat)
    requires w >= 1 && n % 2 == 0 && g <= n * Pow2(w)
    ensures g <= Pow2(w - 1) ==> RoundAt(n * Pow2(w) - g, w) == n
    ensures Pow2(w - 1) < g < 3 * Pow2(w - 1) ==> RoundAt(n * Pow2(w) - g, w) == n - 1
    ensures g >= 3 * Pow2(w - 1) ==> RoundAt(n * Pow2(w) - g, w) <= n - 2
  {
    hide Pow2; hide RoundAt;
    Doubles(w);
    if g <= Pow2(w - 1) {
      RoundIs(n * Pow2(w) - g, w, n);
    } else if g < 3 * Pow2(w - 1) {
      OneUnitBelow(n, g, w);
    } else {
      TwoUnitsBelow(n, g, w);
    }
  }

  lemma OneUnitBelow(n: nat, g: nat, w: nat)
    requires w >= 1 && n % 2 == 0 && g <= n * Pow2(w) && Pow2(w - 1) < g < 3 * Pow2(w - 1)
    ensures RoundAt(n * Pow2(w) - g, w) == n - 1
  {
    hide Pow2; hide RoundAt;
    Doubles(w);
    var p := Pow2(w);
    NotZero(n, g, p);
    MulDist(n - 1, 1, p);
    RoundIs(n * p - g, w, n - 1);
  }

  lemma TwoUnitsBelow(n: nat, g: nat, w: nat)
    requires w >= 1 && n % 2 == 0 && g <= n * Pow2(w) && g >= 3 * Pow2(w - 1)
    ensures RoundAt(n * Pow2(w) - g, w) <= n - 2
  {
    hide Pow2; hide RoundAt;
    Doubles(w);
    var p := Pow2(w);
    NotZero(n, g, p);
    MulDist(n - 2, 2, p);
    if g == 3 * Pow2(w - 1) {
      RoundIs(n * p - g, w, n - 2);
    } else {
      RoundError(n * p - g, w);
      TwoBelow(RoundAt(n * p - g, w), n, p, n * p - g);
    }
  }

  lemma NotZero(n: nat, g: nat, p: nat)
    requires 0 < g <= n * p && n % 2 == 0
    ensures n >= 2
  {
  }

  lemma TwoBelow(r: nat, n: nat, p: nat, m: nat)
    requires p > 0 && Close(m, p, r) && 2 * m < 2 * ((n - 2) * p) + p
    ensures r <= n - 2
  {
    if r >= n - 1 {
      MulMono(n - 1, r, p);
      MulDist(n - 2, 1, p);
    }
  }

  /** The same fraction read with and without a leading one: when both round to the same. */
  lemma SameRounding(n: nat, g: nat, w: nat)
    requires w >= 1 && n % 2 == 0 && 0 < g <= n * Pow2(w)
    ensures Pow2(w + 1) == 2 * Pow2(w) && n * Pow2(w) >= 0 && g <= n * Pow2(w + 1)
    ensures RoundAt(n * Pow2(w + 1) - g, w + 1) == RoundAt(n * Pow2(w) - g, w)
       <==> g <= Pow2(w - 1) || Pow2(w) < g < 3 * Pow2(w - 1)
  {
    Doubles(w);
    Doubles(w + 1);
    hide Pow2; hide RoundAt;
    var p := Pow2(w);
    assert n * (2 * p) == 2 * (n * p) by { MulAssoc(2, n, p); }
    RoundBelowEven(n, g, w);
    RoundBelowEven(n, g, w + 1);
    if g >= 3 * p {
      RoundError(n * p - g, w);
      RoundError(n * (2 * p) - g, w + 1);
      FarApart(RoundAt(n * p - g, w), RoundAt(n * (2 * p) - g, w + 1), n, g, p);
    }
  }

  lemma FarApart(r: nat, s: nat, n: nat, g: nat, p: nat)
    requires p > 0 && g >= 3 * p
    requires Close(n * p - g, p, r) && Close(2 * (n * p) - g, 2 * p, s)
    ensures r != s
  {
    assert s * (2 * p) == 2 * (s * p) by { MulAssoc(2, s, p); }
  }

  /** A misread number that is still rounded to nearest.  Its distance to the smallest normal
      number of the source decides. */
  predicate Harmless(src: Format, dst: Format, a: nat)
    requires Comparable(src, dst)
  {
    var g, w := Pow2(src.sig) - Low(a, src.sig), Scale(src, dst);
    if w < src.sig then g <= Pow2(w - 1) || Pow2(w) < g < 3 * Pow2(w - 1)
    else if w == src.sig then g < Pow2(w - 1) || g == Pow2(w)
    else true
  }

  /** The exact condition for every single number. */
  lemma MisreadExactly(src: Format, dst: Format, a: nat)
    requires Comparable(src, dst) && Misread(src, dst, a)
    ensures NearestEven(src, dst, Mag(src, a), SmallResult(src, dst, a)) <==> Harmless(src, dst, a)
  {
    hide NearestEven; hide Low; hide Shr; hide Mag; hide SmallResult; hide RoundAt; hide Pow2;
    var f, p, w := Low(a, src.sig), Pow2(src.sig), Scale(src, dst);
    MisreadResult(src, dst, a);
    SubnormalNearest(src, dst, a);
    if NearestEven(src, dst, Mag(src, a), SmallResult(src, dst, a)) {
      NearestUnique(src, dst, Mag(src, a), SmallResult(src, dst, a), RoundAt(f, w));
    }
    assert NearestEven(src, dst, Mag(src, a), SmallResult(src, dst, a)) <==> RoundAt(p + f, w + 1) == RoundAt(f, w);
    if w < src.sig {
      Pow2Add(src.sig - w, w);
      Doubles(src.sig - w);
      Doubles(w + 1);
      var n := Pow2(src.sig - w);
      MulAssoc(n, 2, Pow2(w));
      assert n * Pow2(w + 1) == 2 * p by { MulAssoc(2, n, Pow2(w)); }
      SameRounding(n, p - f, w);
    } else if w == src.sig {
      LastRounding(p - f, w);
    } else {
      MisreadHarmless(src, dst, a);
    }
  }

  /** The same when the whole fraction is below one unit. */
  lemma LastRounding(g: nat, w: nat)
    requires w >= 1 && 0 < g <= Pow2(w)
    ensures RoundAt(2 * Pow2(w) - g, w + 1) == RoundAt(Pow2(w) - g, w) <==> g < Pow2(w - 1) || g == Pow2(w)
  {
    Doubles(w);
    Doubles(w + 1);
    hide Pow2; hide RoundAt;
    var p := Pow2(w);
    assert 1 * p == p && 0 * p == 0 && 1 * (2 * p) == 2 * p && 0 * (2 * p) == 0;
    if g < Pow2(w - 1) { RoundIs(p - g, w, 1); } else { RoundIs(p - g, w, 0); }
    if g < p { RoundIs(2 * p - g, w + 1, 1); } else { RoundIs(2 * p - g, w + 1, 0); }
  }

  /** The exact condition: every number below the normal range is rounded to nearest if and only
      if the exponent range is so much narrower. */
  lemma NearestExactly(src: Format, dst: Format)
    requires Comparable(src, dst)
    ensures Narrows(src, dst) <==>
            forall a: nat :: Shr(a, src.sig) <= BiasDiff(src, dst) ==>
                  NearestEven(src, dst, Mag(src, a), SmallResult(src, dst, a))
  {
    hide NearestEven; hide Mag; hide SmallResult; hide Pow2;
    if Narrows(src, dst) {
      forall a: nat | Shr(a, src.sig) <= BiasDiff(src, dst) ensures NearestEven(src, dst, Mag(src, a),
          SmallResult(src, dst, a)) {
        if Misread(src, dst, a) {
          MisreadHarmless(src, dst, a);
        } else {
          SmallRounds(src, dst, a);
        }
      }
    } else {
      SmallestMisread(src, dst);
    }
  }

  // ----- the result for every number

  /** The pattern that truncation makes of a pattern without its sign. */
  ghost function TruncAbs(src: Format, dst: Format, a: nat): int
    requires Comparable(src, dst)
  {
    if Underflow(src, dst) <= a < Overflow(src, dst) then
      Rebiased(src, dst, a) + (RoundAt(a, Dropped(src, dst)) - Shr(a, Dropped(src, dst)))
    else if a > src.Inf() then
      dst.Inf() + Pow2(dst.sig - 1) + Shr(Low(a, src.sig - 1), Dropped(src, dst))
    else if a >= Overflow(src, dst) then dst.Inf()
    else
      BelowUnderflow(src, dst, a);
      SmallResult(src, dst, a)
  }

  lemma ShrCompare(a: nat, e: nat, sig: nat)
    ensures a >= e * Pow2(sig) <==> Shr(a, sig) >= e
  {
    hide Pow2; hide Shr; hide Low;
    Fields(a, sig);
    if Shr(a, sig) >= e {
      MulMono(e, Shr(a, sig), Pow2(sig));
    } else {
      MulMono(Shr(a, sig) + 1, e, Pow2(sig));
      MulDist(Shr(a, sig), 1, Pow2(sig));
    }
  }

  lemma BelowUnderflow(src: Format, dst: Format, a: nat)
    requires Comparable(src, dst)
    ensures a < Underflow(src, dst) <==> Shr(a, src.sig) <= BiasDiff(src, dst)
  {
    hide Pow2; hide Shr; hide BiasDiff;
    ShrCompare(a, BiasDiff(src, dst) + 1, src.sig);
  }

  lemma BelowOverflow(src: Format, dst: Format, a: nat)
    requires Comparable(src, dst)
    ensures a < Overflow(src, dst) <==> Shr(a, src.sig) < BiasDiff(src, dst) + dst.InfExp()
  {
    hide Pow2; hide Shr; hide BiasDiff;
    ShrCompare(a, BiasDiff(src, dst) + dst.InfExp(), src.sig);
  }

  /** What truncation promises: finite numbers round to nearest even, infinity stays, and a
      NaN becomes a quiet NaN with the high part of its payload. */
  ghost predicate Truncated(src: Format, dst: Format, a: nat, r: int)
    requires Comparable(src, dst)
  {
    if a < src.Inf() then r >= 0 && NearestEven(src, dst, Mag(src, a), r)
    else if a == src.Inf() then r == dst.Inf()
    else r == dst.Inf() + Pow2(dst.sig - 1) + Shr(Low(a, src.sig - 1), Dropped(src, dst))
  }

  /** A number for which truncation keeps its promise. */
  ghost predicate Kept(src: Format, dst: Format, a: nat)
    requires Comparable(src, dst)
  {
    !Misread(src, dst, a) || Harmless(src, dst, a)
  }

  lemma InfFits(f: Format)
    requires f.Valid()
    ensures f.Inf() + Pow2(f.sig) == Pow2(f.bits - 1)
    ensures Pow2(f.bits - 1) < Pow2(f.bits)
    ensures f.InfExp() == 2 * f.Bias() + 1
  {
    Pow2Add(f.ExpBits(), f.sig);
    assert Pow2(f.ExpBits()) == 2 * Pow2(f.ExpBits() - 1);
    assert Pow2(f.bits) == 2 * Pow2(f.bits - 1);
    hide Pow2;
    MulDist(f.InfExp(), 1, Pow2(f.sig));
  }

  /** The ranges of the conversion follow each other. */
  lemma RangesOrdered(src: Format, dst: Format)
    requires Comparable(src, dst)
    ensures Underflow(src, dst) < Overflow(src, dst) <= src.Inf()
  {
    InfFits(src);
    InfFits(dst);
    InfIsLarge(dst);
    hide Pow2;
    var p := Pow2(src.sig);
    MulMono(BiasDiff(src, dst) + 2, BiasDiff(src, dst) + dst.InfExp(), p);
    MulDist(BiasDiff(src, dst) + 1, 1, p);
    MulMono(BiasDiff(src, dst) + dst.InfExp(), src.InfExp(), p);
  }

  /** The exact condition for every pattern. */
  lemma PromiseExactly(src: Format, dst: Format, a: nat)
    requires Comparable(src, dst)
    ensures Truncated(src, dst, a, TruncAbs(src, dst, a)) <==> Kept(src, dst, a)
  {
    hide NearestEven; hide Mag; hide SmallResult; hide Pow2; hide Shr; hide Low; hide Harmless; hide RoundAt;
    RangesOrdered(src, dst);
    BelowUnderflow(src, dst, a);
    BelowOverflow(src, dst, a);
    hide Underflow; hide Overflow; hide BiasDiff; hide Rebiased;
    if a < Underflow(src, dst) {
      if Misread(src, dst, a) {
        MisreadExactly(src, dst, a);
      } else {
        SmallRounds(src, dst, a);
      }
    } else if a < Overflow(src, dst) {
      NormalRounds(src, dst, a);
      RoundGrows(a, Dropped(src, dst));
    } else if a < src.Inf() {
      OverflowRounds(src, dst, a);
    }
  }

  lemma RoundGrows(m: nat, w: nat)
    requires w >= 1
    ensures Shr(m, w) <= RoundAt(m, w) <= Shr(m, w) + 1
  {
    hide Shr; hide Low; hide Pow2;
  }

  // ----- truncation is monotone

  lemma {:induction false} RoundMono(m: nat, m': nat, w: nat)
    requires w >= 1 && m <= m'
    ensures RoundAt(m, w) <= RoundAt(m', w)
  {
    hide Shr; hide Low; hide Pow2;
    Fields(m, w);
    Fields(m', w);
    var q, q', p := Shr(m, w), Shr(m', w), Pow2(w);
    if q' < q {
      MulMono(q' + 1, q, p);
      MulDist(q', 1, p);
    }
  }

  /** Rounding 2^e times as much at e bits more. */
  lemma RoundScaled(m: nat, e: nat, w: nat)
    requires w >= 1
    ensures m * Pow2(e) >= 0 && RoundAt(m * Pow2(e), w + e) == RoundAt(m, w)
  {
    Pow2Add(w, e);
    Pow2Add(w - 1, e);
    Doubles(w);
    hide Pow2; hide RoundAt; hide Shr; hide Low;
    Fields(m, w);
    var q, rem, p, s := Shr(m, w), Low(m, w), Pow2(w), Pow2(e);
    MulMono(0, m, s);
    MulMono(0, rem, s);
    MulMono(rem + 1, p, s);
    MulDist(rem, 1, s);
    MulDist(q * p, rem, s);
    MulAssoc(q, p, s);
    RoundOf(m, w, q, rem);
    RoundOf(m * s, w + e, q, rem * s);
    SameOrder(rem, Pow2(w - 1), s);
  }

  lemma SameOrder(x: nat, y: nat, s: nat)
    requires s > 0
    ensures x * s > y * s <==> x > y
    ensures x * s == y * s <==> x == y
  {
    if x > y { MulMono(y + 1, x, s); MulDist(y, 1, s); }
    if x < y { MulMono(x + 1, y, s); MulDist(x, 1, s); }
  }

  /** Below the normal range every number is treated as one of exponent at least 1, that is as
      the number of the next exponent, and rounded with half the unit. */
  lemma SmallIsRound(src: Format, dst: Format, a: nat)
    requires Comparable(src, dst) && Shr(a, src.sig) <= BiasDiff(src, dst)
    ensures SmallResult(src, dst, a) == RoundAt(Mag(src, a + Pow2(src.sig)), Scale(src, dst) + 1)
  {
    var m, e, d := Pow2(src.sig) + Low(a, src.sig), Shr(a, src.sig), Dropped(src, dst);
    assert m < Pow2(src.sig + 1);
    hide Pow2; hide Shr; hide Low; hide RoundAt; hide StickyShift; hide BiasDiff;
    NextExponent(src, a);
    var shift := BiasDiff(src, dst) - e + 1;
    RoundScaled(m, e, shift + d);
    assert Scale(src, dst) + 1 == shift + d + e;
    if shift > src.sig {
      Pow2Mono(src.sig + 1, shift + d - 1);
      RoundsToZero(m, shift + d);
    } else {
      StickyRounds(m, shift, d);
    }
  }

  lemma NextExponent(f: Format, a: nat)
    ensures Mag(f, a + Pow2(f.sig)) == (Pow2(f.sig) + Low(a, f.sig)) * Pow2(Shr(a, f.sig))
  {
    hide Pow2; hide Shr; hide Low;
    var e, m, p := Shr(a, f.sig), Low(a, f.sig), Pow2(f.sig);
    Fields(a, f.sig);
    MulDist(e, 1, p);
    MakeFields(e + 1, m, f.sig);
  }

  lemma NearestSelf(src: Format, dst: Format, r: nat)
    requires Comparable(src, dst) && r <= dst.Inf()
    ensures NearestEven(src, dst, Target(src, dst, r), r)
  {
    hide Target; hide Pow2;
    forall q: nat | q <= dst.Inf() && q != r
      ensures Distance(Target(src, dst, r), Target(src, dst, q)) > 0
    {
      if q < r { TargetMono(src, dst, q, r); } else { TargetMono(src, dst, r, q); }
    }
  }

  /** From the normal range on, the result is a normal number. */
  lemma NormalResult(src: Format, dst: Format, a: nat)
    requires Comparable(src, dst) && Underflow(src, dst) <= a <= src.Inf()
    ensures TruncAbs(src, dst, a) >= Pow2(dst.sig)
  {
    hide Mag; hide Pow2; hide NearestEven; hide Target; hide TruncAbs; hide BiasDiff; hide Shr; hide Low;
    InfIsLarge(dst);
    BelowUnderflow(src, dst, a);
    PromiseExactly(src, dst, a);
    if a < src.Inf() {
      FirstNormal(src, dst);
      MagMono(src, Underflow(src, dst), a);
      NearestSelf(src, dst, Pow2(dst.sig));
      NearestMono(src, dst, Target(src, dst, Pow2(dst.sig)), Mag(src, a), Pow2(dst.sig), TruncAbs(src, dst, a));
    }
  }

  lemma FirstNormal(src: Format, dst: Format)
    requires Comparable(src, dst)
    ensures Mag(src, Underflow(src, dst)) == Target(src, dst, Pow2(dst.sig))
  {
    hide Mag; hide Pow2; hide BiasDiff;
    MagPower(src, BiasDiff(src, dst) + 1);
    MagPower(dst, 1);
    assert 1 * Pow2(dst.sig) == Pow2(dst.sig);
    Pow2Add(dst.sig + 0, Scale(src, dst));
  }

  /** Truncation never swaps the order of two numbers, misread ones included. */
  lemma AbsMonotone(src: Format, dst: Format, a: nat, b: nat)
    requires Comparable(src, dst) && a <= b <= src.Inf()
    ensures TruncAbs(src, dst, a) <= TruncAbs(src, dst, b)
  {
    hide Mag; hide Pow2; hide NearestEven; hide SmallResult; hide BiasDiff; hide Shr; hide Low; hide RoundAt;
    hide Rebiased;
    RangesOrdered(src, dst);
    BelowUnderflow(src, dst, a);
    BelowUnderflow(src, dst, b);
    hide Underflow; hide Overflow;
    if b < Underflow(src, dst) {
      SmallIsRound(src, dst, a);
      SmallIsRound(src, dst, b);
      MagMono(src, a + Pow2(src.sig), b + Pow2(src.sig));
      RoundMono(Mag(src, a + Pow2(src.sig)), Mag(src, b + Pow2(src.sig)), Scale(src, dst) + 1);
    } else if a < Underflow(src, dst) {
      SmallFits(src, dst, a);
      NormalResult(src, dst, b);
    } else {
      NormalMonotone(src, dst, a, b);
    }
  }

  lemma NormalMonotone(src: Format, dst: Format, a: nat, b: nat)
    requires Comparable(src, dst) && Underflow(src, dst) <= a <= b <= src.Inf()
    ensures TruncAbs(src, dst, a) <= TruncAbs(src, dst, b)
  {
    hide Mag; hide Pow2; hide NearestEven; hide TruncAbs; hide BiasDiff; hide Shr; hide Low;
    BelowUnderflow(src, dst, a);
    BelowUnderflow(src, dst, b);
    PromiseExactly(src, dst, a);
    PromiseExactly(src, dst, b);
    if b < src.Inf() {
      MagMono(src, a, b);
      NearestMono(src, dst, Mag(src, a), Mag(src, b), TruncAbs(src, dst, a), TruncAbs(src, dst, b));
    } else if a < src.Inf() {
      NearestInRange(src, dst, Mag(src, a), TruncAbs(src, dst, a));
    }
  }

  lemma NearestInRange(src: Format, dst: Format, x: nat, r: nat)
    requires Comparable(src, dst) && NearestEven(src, dst, x, r)
    ensures r <= dst.Inf()
  {
  }
}
