/**
 Binary floating-point formats of any width.  A number without its sign is its bit
 pattern a: exponent field a / 2^sig and fraction a % 2^sig.  Magnitudes are counted in
 units of the smallest subnormal, so that all of them are integers.
 */
module FloatFormat {
  import opened Bits

  datatype Format = Format(bits: nat, sig: nat) {
    ghost predicate Valid() {
      sig >= 1 && bits >= sig + 3
    }

    function ExpBits(): nat
      requires Valid()
    {
      bits - sig - 1
    }

    function InfExp(): nat
      requires Valid()
    {
      Pow2(ExpBits()) - 1
    }

    function Bias(): nat
      requires Valid()
    {
      Pow2(ExpBits() - 1) - 1
    }

    /** The pattern of infinity; larger patterns are NaNs. */
    function Inf(): nat
      requires Valid()
    {
      MulMono(0, InfExp(), Pow2(sig));
      InfExp() * Pow2(sig)
    }
  }

  /** The magnitude of a pattern with exponent field e and fraction m; infinity counts as the
      next number after the largest one. */
  ghost function MagOf(sig: nat, e: nat, m: nat): nat {
    if e == 0 then m
    else
      MulMono(0, Pow2(sig) + m, Pow2(e - 1));
      (Pow2(sig) + m) * Pow2(e - 1)
  }

  ghost function Mag(f: Format, a: nat): nat {
    MagOf(f.sig, Shr(a, f.sig), Low(a, f.sig))
  }

  /** The distance from a pattern to the next. */
  ghost function Ulp(f: Format, a: nat): nat {
    if Shr(a, f.sig) == 0 then 1 else Pow2(Shr(a, f.sig) - 1)
  }

  lemma Fields(a: nat, sig: nat)
    ensures a == Shr(a, sig) * Pow2(sig) + Low(a, sig)
  {
    hide Pow2;
  }

  lemma MakeFields(e: nat, m: nat, sig: nat)
    requires m < Pow2(sig)
    ensures e * Pow2(sig) + m >= 0 && Shr(e * Pow2(sig) + m, sig) == e && Low(e * Pow2(sig) + m, sig) == m
  {
    hide Pow2;
    MulMono(0, e, Pow2(sig));
    DivModUnique(e * Pow2(sig) + m, Pow2(sig), e, m);
  }

  lemma CarryMag(sig: nat, e: nat)
    ensures MagOf(sig, e, Pow2(sig) - 1) + (if e == 0 then 1 else Pow2(e - 1)) == MagOf(sig, e + 1, 0)
  {
    if e > 0 {
      var p, q := Pow2(sig), Pow2(e - 1);
      assert Pow2(e) == 2 * q;
      hide Pow2;
      assert (p + (p - 1)) * q + q == p * (2 * q) by { MulDist(p + (p - 1), 1, q); MulAssoc(p, 2, q); }
      assert (p + 0) * (2 * q) == p * (2 * q);
    } else {
      assert (Pow2(sig) + 0) * Pow2(0) == Pow2(sig);
    }
  }

  lemma StepMag(sig: nat, e: nat, m: nat)
    ensures MagOf(sig, e, m + 1) == MagOf(sig, e, m) + (if e == 0 then 1 else Pow2(e - 1))
  {
    if e > 0 {
      hide Pow2;
      MulDist(Pow2(sig) + m, 1, Pow2(e - 1));
    }
  }

  /** Consecutive patterns are consecutive numbers, also across a change of exponent. */
  lemma MagNext(f: Format, a: nat)
    ensures Mag(f, a + 1) == Mag(f, a) + Ulp(f, a)
  {
    hide MagOf; hide Pow2; hide Shr; hide Low;
    var e, m, p := Shr(a, f.sig), Low(a, f.sig), Pow2(f.sig);
    Fields(a, f.sig);
    if m + 1 < p {
      MakeFields(e, m + 1, f.sig);
      StepMag(f.sig, e, m);
    } else {
      MulDist(e, 1, p);
      MakeFields(e + 1, 0, f.sig);
      CarryMag(f.sig, e);
    }
  }

  lemma {:induction false} MagMono(f: Format, a: nat, b: nat)
    requires a <= b
    ensures Mag(f, a) + (b - a) <= Mag(f, b)
    decreases b
  {
    hide Mag;
    if a < b {
      MagMono(f, a, b - 1);
      MagNext(f, b - 1);
    }
  }
}
