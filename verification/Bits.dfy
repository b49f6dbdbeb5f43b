/**
 Powers of two, division by them, and bit reversal, as facts about naturals.
 The C code shifts, masks and ors; on naturals a right shift by n is division by
 Pow2(n), a mask of the low n bits is the remainder, and or-ing disjoint bit fields
 is addition.
 */
module Bits {

  function Pow2(n: nat): (r: nat)
    ensures r >= 1
  {
    if n == 0 then 1 else 2 * Pow2(n - 1)
  }

  lemma {:induction false} Pow2Add(a: nat, b: nat)
    ensures Pow2(a + b) == Pow2(a) * Pow2(b)
  {
    if a > 0 {
      Pow2Add(a - 1, b);
      assert Pow2(a + b) == 2 * (Pow2(a - 1) * Pow2(b)) == Pow2(a) * Pow2(b);
    }
  }

  lemma {:induction false} Pow2Mono(a: nat, b: nat)
    requires a <= b
    ensures Pow2(a) <= Pow2(b)
  {
    if a < b {
      Pow2Mono(a, b - 1);
    }
  }

  lemma Pow2Strict(a: nat, b: nat)
    requires a < b
    ensures 2 * Pow2(a) <= Pow2(b)
  {
    Pow2Mono(a + 1, b);
  }

  lemma Pow2Values()
    ensures Pow2(0) == 1 && Pow2(1) == 2 && Pow2(2) == 4 && Pow2(3) == 8 && Pow2(4) == 16
    ensures Pow2(5) == 32 && Pow2(6) == 64 && Pow2(7) == 128 && Pow2(8) == 256
    ensures Pow2(9) == 512 && Pow2(15) == 32768
  {
    assert Pow2(4) == 2 * Pow2(3);
    assert Pow2(8) == 2 * Pow2(7);
    assert Pow2(12) == 8 * Pow2(9);
    assert Pow2(15) == 8 * Pow2(12);
  }

  lemma MulMono(a: int, b: int, d: int)
    requires a <= b && d >= 0
    ensures a * d <= b * d
  {
    assert (b - a) * d >= 0;
  }

  lemma MulDist(a: int, b: int, d: int)
    ensures (a + b) * d == a * d + b * d
  {
  }

  lemma MulAssoc(a: int, b: int, d: int)
    ensures a * b * d == a * (b * d)
    ensures a * b * d == a * d * b
  {
  }

  /** A quotient and remainder are determined by the division equation. */
  lemma DivModUnique(x: int, d: int, q: int, r: int)
    requires d > 0 && 0 <= r < d && x == q * d + r
    ensures x / d == q && x % d == r
  {
    var q', r' := x / d, x % d;
    assert x == q' * d + r';
    if q > q' {
      MulMono(q' + 1, q, d);
    } else if q < q' {
      MulMono(q + 1, q', d);
    }
  }

  /** Dividing twice is dividing by the product. */
  lemma DivDiv(x: nat, a: nat, b: nat)
    requires a > 0 && b > 0
    ensures a * b > 0
    ensures (x / a) / b == x / (a * b)
    ensures x % (a * b) == ((x / a) % b) * a + x % a
  {
    var y, r := x / a, x % a;
    var q, s := y / b, y % b;
    MulMono(1, a, b);
    assert x == q * (a * b) + (s * a + r) by {
      assert x == y * a + r && y == q * b + s;
      MulDist(q * b, s, a);
      MulAssoc(q, b, a);
    }
    assert 0 <= s * a + r < a * b by {
      MulMono(s + 1, b, a);
      MulDist(s, 1, a);
      MulMono(0, s, a);
    }
    DivModUnique(x, a * b, q, s * a + r);
  }

  /** The same facts with powers of two: splitting at bit m of an (m + n)-bit field. */
  lemma Split(x: nat, m: nat, n: nat)
    ensures (x / Pow2(m)) / Pow2(n) == x / Pow2(m + n)
    ensures x % Pow2(m + n) == ((x / Pow2(m)) % Pow2(n)) * Pow2(m) + x % Pow2(m)
    ensures (x % Pow2(m + n)) % Pow2(m) == x % Pow2(m)
    ensures (x % Pow2(m + n)) / Pow2(m) == (x / Pow2(m)) % Pow2(n)
  {
    Pow2Add(m, n);
    DivDiv(x, Pow2(m), Pow2(n));
    DivModUnique(x % Pow2(m + n), Pow2(m), (x / Pow2(m)) % Pow2(n), x % Pow2(m));
  }

  lemma DivBound(x: nat, d: nat, n: nat)
    requires d > 0 && x < n * d
    ensures x / d < n
  {
    if x / d >= n {
      MulMono(n, x / d, d);
    }
  }

  /** The low n bits of x: x & ((1 << n) - 1). */
  function Low(x: nat, n: nat): (r: nat)
    ensures r < Pow2(n) && r <= x
    ensures x < Pow2(n) ==> r == x
  {
    ModFacts(x, Pow2(n));
    x % Pow2(n)
  }

  /** x >> n. */
  function Shr(x: nat, n: nat): (r: nat) {
    QuotientNonNegative(x, Pow2(n));
    x / Pow2(n)
  }

  lemma QuotientNonNegative(x: nat, d: nat)
    requires d > 0
    ensures x / d >= 0
  {
    if x / d < 0 {
      MulMono(x / d, -1, d);
    }
  }

  lemma ModFacts(x: nat, p: nat)
    requires p > 0
    ensures x % p <= x && (x < p ==> x % p == x)
  {
    MulMono(0, x / p, p);
    if x < p {
      DivModUnique(x, p, 0, x);
    }
  }

  /** Bytes are naturals below 256. */
  ghost predicate AllBytes(data: seq<nat>) {
    forall i :: 0 <= i < |data| ==> data[i] < 256
  }

  /** Bit k of x. */
  predicate Bit(x: nat, k: nat) {
    (x / Pow2(k)) % 2 == 1
  }

  /** The low n bits of x in reverse order. */
  function Rev(n: nat, x: nat): (r: nat)
    ensures r < Pow2(n)
  {
    if n == 0 then 0 else (x % 2) * Pow2(n - 1) + Rev(n - 1, x / 2)
  }

  /** Reversal only looks at the low n bits. */
  lemma {:induction false} RevLow(n: nat, x: nat)
    ensures Rev(n, x % Pow2(n)) == Rev(n, x)
  {
    if n > 0 {
      Split(x, 1, n - 1);
      assert Pow2(1) == 2;
      RevLow(n - 1, x / 2);
    }
  }

  /** Reversal swaps the two halves of a field and reverses each. */
  lemma {:induction false} RevConcat(a: nat, h: nat, b: nat, l: nat)
    requires l < Pow2(b)
    ensures Rev(a + b, h * Pow2(b) + l) == Rev(b, l) * Pow2(a) + Rev(a, h)
    decreases b
  {
    if b == 0 {
      assert h * Pow2(0) + l == h;
    } else {
      var p := Pow2(b - 1);
      var y := h * p + l / 2;
      assert h * Pow2(b) + l == y * 2 + l % 2 by { MulAssoc(h, p, 2); }
      DivModUnique(h * Pow2(b) + l, 2, y, l % 2);
      RevConcat(a, h, b - 1, l / 2);
      assert (l % 2) * Pow2(a + b - 1) == (l % 2) * p * Pow2(a) by { Pow2Add(b - 1, a); MulAssoc(l % 2, p, Pow2(a)); }
      MulDist((l % 2) * p, Rev(b - 1, l / 2), Pow2(a));
    }
  }

  lemma RevCons(n: nat, b: nat, r: nat)
    requires b < 2 && r < Pow2(n)
    ensures Rev(n + 1, b * Pow2(n) + r) == 2 * Rev(n, r) + b
  {
    RevConcat(1, b, n, r);
    assert Rev(1, b) == b;
  }

  lemma {:induction false} RevRev(n: nat, x: nat)
    requires x < Pow2(n)
    ensures Rev(n, Rev(n, x)) == x
  {
    if n > 0 {
      var b, r := x % 2, Rev(n - 1, x / 2);
      assert Rev(n, x) == b * Pow2(n - 1) + r;
      assert x / 2 < Pow2(n - 1);
      hide Rev; hide Pow2;
      RevRev(n - 1, x / 2);
      RevCons(n - 1, b, r);
    }
  }
}
