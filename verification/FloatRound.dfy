/**
 Rounding to the nearest number of a narrower format, ties to even: section 4.3.1 of
 IEEE 754-2008.
 */
module FloatRound {
  import opened Bits
  import opened FloatFormat

  /** A narrower format with at least two bits less of fraction, so that the sticky bit stays
      below the rounding bit, and with no larger exponents. */
  ghost predicate Comparable(src: Format, dst: Format) {
    && src.Valid() && dst.Valid() && src.bits > dst.bits
    && src.sig >= dst.sig + 2 && src.Bias() >= dst.Bias()
  }

  /** The exponent range is so much narrower that the subnormal numbers of the source are below
      half the smallest target number. */
  ghost predicate Narrows(src: Format, dst: Format) {
    Comparable(src, dst) && src.Bias() >= dst.Bias() + dst.sig + 1
  }

  function BiasDiff(src: Format, dst: Format): nat
    requires Comparable(src, dst)
  {
    src.Bias() - dst.Bias()
  }

  /** The smallest target number is 2^Scale times the smallest source number. */
  function Scale(src: Format, dst: Format): nat
    requires Comparable(src, dst)
  {
    BiasDiff(src, dst) + (src.sig - dst.sig)
  }

  /** The target number r in source units. */
  ghost function Target(src: Format, dst: Format, r: nat): nat
    requires Comparable(src, dst)
  {
    MulMono(0, Mag(dst, r), Pow2(Scale(src, dst)));
    Mag(dst, r) * Pow2(Scale(src, dst))
  }

  function Distance(x: int, y: int): nat {
    if x < y then y - x else x - y
  }

  /** r is nearest to x among the target numbers and infinity, and even if there is a tie. */
  ghost predicate NearestEven(src: Format, dst: Format, x: nat, r: nat)
    requires Comparable(src, dst)
  {
    && r <= dst.Inf()
    && forall q: nat {:trigger Target(src, dst, q)} :: q <= dst.Inf() && q != r ==>
         && Distance(x, Target(src, dst, r)) <= Distance(x, Target(src, dst, q))
         && (Distance(x, Target(src, dst, r)) == Distance(x, Target(src, dst, q)) ==> r % 2 == 0)
  }

  lemma TargetMono(src: Format, dst: Format, a: nat, b: nat)
    requires Comparable(src, dst) && a < b
    ensures Target(src, dst, a) < Target(src, dst, b)
  {
    hide Mag; hide Pow2; hide Scale;
    MagMono(dst, a, b);
    var p := Pow2(Scale(src, dst));
    MulMono(Mag(dst, a) + 1, Mag(dst, b), p);
    MulDist(Mag(dst, a), 1, p);
  }

  /** Rounding between two neighbours. */
  lemma RoundBetween(src: Format, dst: Format, x: nat, r0: nat, r: nat)
    requires Comparable(src, dst) && r0 < dst.Inf()
    requires Target(src, dst, r0) <= x <= Target(src, dst, r0 + 1)
    requires var mid := Target(src, dst, r0) + Target(src, dst, r0 + 1);
             && (2 * x < mid ==> r == r0) && (2 * x > mid ==> r == r0 + 1) && (2 * x == mid ==> r == r0 + r0 % 2)
    ensures NearestEven(src, dst, x, r)
  {
    hide Target; hide Pow2;
    TargetMono(src, dst, r0, r0 + 1);
    forall q: nat | q <= dst.Inf() && q != r
      ensures Distance(x, Target(src, dst, r)) <= Distance(x, Target(src, dst, q))
      ensures Distance(x, Target(src, dst, r)) == Distance(x, Target(src, dst, q)) ==> r % 2 == 0
    {
      if q < r0 {
        TargetMono(src, dst, q, r0);
      } else if q > r0 + 1 {
        TargetMono(src, dst, r0 + 1, q);
      }
    }
  }

  /** Numbers at or above infinity round to infinity. */
  lemma RoundOverflow(src: Format, dst: Format, x: nat)
    requires Comparable(src, dst) && x >= Target(src, dst, dst.Inf())
    ensures NearestEven(src, dst, x, dst.Inf())
  {
    hide Target; hide Pow2;
    forall q: nat | q <= dst.Inf() && q != dst.Inf()
      ensures Distance(x, Target(src, dst, dst.Inf())) < Distance(x, Target(src, dst, q))
    {
      TargetMono(src, dst, q, dst.Inf());
    }
  }

  /** A wider number rounds to a number at least as large. */
  lemma NearestMono(src: Format, dst: Format, x: nat, y: nat, r: nat, s: nat)
    requires Comparable(src, dst) && x <= y && NearestEven(src, dst, x, r) && NearestEven(src, dst, y, s)
    ensures r <= s
  {
    hide Target; hide Pow2;
    if r > s {
      TargetMono(src, dst, s, r);
      assert Distance(x, Target(src, dst, r)) <= Distance(x, Target(src, dst, s));
      assert Distance(y, Target(src, dst, s)) <= Distance(y, Target(src, dst, r));
      if r > s + 1 {
        TargetMono(src, dst, s, s + 1);
        TargetMono(src, dst, s + 1, r);
      }
    }
  }

  /** A number of the target format rounds to itself. */
  lemma NearestExact(src: Format, dst: Format, a: nat, r: nat)
    requires Comparable(src, dst) && a <= dst.Inf() && NearestEven(src, dst, Target(src, dst, a), r)
    ensures r == a
  {
    hide Target; hide Pow2;
    if r != a {
      assert Distance(Target(src, dst, a), Target(src, dst, r)) <= Distance(Target(src, dst, a), Target(src, dst, a));
      if r < a { TargetMono(src, dst, r, a); } else { TargetMono(src, dst, a, r); }
    }
  }

  // ----- rounding by dropping bits

  /** Drop the low w bits of m: round to nearest, ties to even. */
  function RoundAt(m: nat, w: nat): nat
    requires w >= 1
  {
    var q, rem, half := Shr(m, w), Low(m, w), Pow2(w - 1);
    if rem > half then q + 1 else if rem == half then q + q % 2 else q
  }

  lemma HalfWay(q: nat, rem: nat, half: nat, s: nat)
    requires s > 0
    ensures (q * (2 * half) + rem) * s == q * (2 * half) * s + rem * s
    ensures (q + 1) * (2 * half) * s == q * (2 * half) * s + 2 * (half * s)
    ensures rem > half ==> rem * s > half * s
    ensures rem < half ==> rem * s < half * s
  {
    MulDist(q * (2 * half), rem, s);
    MulDist(q, 1, 2 * half);
    MulDist(q * (2 * half), 2 * half, s);
    MulAssoc(2, half, s);
    if rem > half {
      MulMono(half + 1, rem, s);
      MulDist(half, 1, s);
    } else if rem < half {
      MulMono(rem + 1, half, s);
      MulDist(rem, 1, s);
    }
  }

  lemma Doubles(w: nat)
    requires w >= 1
    ensures Pow2(w) == 2 * Pow2(w - 1)
  {
  }

  /** Dropping bits rounds to nearest when the multiples of 2^w are target numbers. */
  lemma DropRounds(src: Format, dst: Format, m: nat, w: nat, s: nat, r0: nat, r: nat)
    requires Comparable(src, dst) && w >= 1 && r0 < dst.Inf() && r0 % 2 == Shr(m, w) % 2
    requires Target(src, dst, r0) == Shr(m, w) * Pow2(w) * Pow2(s)
    requires Target(src, dst, r0 + 1) == (Shr(m, w) + 1) * Pow2(w) * Pow2(s)
    requires r == r0 + (RoundAt(m, w) - Shr(m, w))
    ensures m * Pow2(s) >= 0 && NearestEven(src, dst, m * Pow2(s), r)
  {
    hide Pow2; hide Target; hide Shr; hide Low; hide NearestEven; hide Comparable;
    var q, rem, half := Shr(m, w), Low(m, w), Pow2(w - 1);
    Doubles(w);
    Fields(m, w);
    HalfWay(q, rem, half, Pow2(s));
    MulMono(0, m, Pow2(s));
    MulMono(0, rem, Pow2(s));
    MulMono(rem, 2 * half, Pow2(s));
    MulAssoc(2, half, Pow2(s));
    RoundBetween(src, dst, m * Pow2(s), r0, r);
  }
}
