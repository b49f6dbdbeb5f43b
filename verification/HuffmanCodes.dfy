/**
 Counting in bit-reversed order.  The table builder never reverses a code: it keeps
 the reversed code and adds to that, carrying from the high end towards the low end.
 */
module HuffmanCodes {
  import opened Bits

  /** What the carry loop computes on a j-bit word: clear the ones at the top, set the
      highest zero. */
  ghost function RevInc(j: nat, code: nat): (r: nat)
    ensures r < Pow2(j)
  {
    if j == 0 then 0
    else
      assert code % Pow2(j - 1) < Pow2(j - 1);
      if (code / Pow2(j - 1)) % 2 == 0 then code % Pow2(j - 1) + Pow2(j - 1)
      else RevInc(j - 1, code % Pow2(j - 1))
  }

  lemma TopBit(j: nat, code: nat)
    requires 1 <= j && code < Pow2(j)
    ensures code == ((code / Pow2(j - 1)) % 2) * Pow2(j - 1) + code % Pow2(j - 1)
    ensures (code / Pow2(j - 1)) % 2 == code / Pow2(j - 1)
  {
    var p := Pow2(j - 1);
    DivBound(code, p, 2);
  }

  lemma EvenPart(n: nat, y: nat)
    requires y < Pow2(n)
    ensures Rev(n + 1, 2 * y) == Rev(n, y)
    ensures Rev(n + 1, 2 * y + 1) == Pow2(n) + Rev(n, y)
  {
    assert (2 * y) / 2 == y && (2 * y + 1) / 2 == y;
  }

  lemma DoubleMod(x: nat, p: nat)
    requires p > 0
    ensures (2 * x) % (2 * p) == 2 * (x % p)
  {
    assert 2 * x == (x / p) * (2 * p) + 2 * (x % p) by {
      MulAssoc(x / p, 2, p);
    }
    DivModUnique(2 * x, 2 * p, x / p, 2 * (x % p));
  }

  lemma RevIncEven(n: nat, r: nat, low: nat)
    requires low < Pow2(n) && r == Rev(n, low)
    ensures Rev(n + 1, (2 * r + 1) % Pow2(n + 1)) == low + Pow2(n)
  {
    DivModUnique(2 * r + 1, Pow2(n + 1), 0, 2 * r + 1);
    EvenPart(n, r);
    RevRev(n, low);
  }

  lemma RevIncOdd(n: nat, r: nat)
    requires r < Pow2(n)
    ensures Rev(n + 1, (2 * r + 2) % Pow2(n + 1)) == Rev(n, (r + 1) % Pow2(n))
  {
    DoubleMod(r + 1, Pow2(n));
    EvenPart(n, (r + 1) % Pow2(n));
  }

  lemma RevIncTop(j: nat, code: nat)
    requires j > 0 && code < Pow2(j)
    ensures var p, low := Pow2(j - 1), code % Pow2(j - 1);
            RevInc(j, code) == if (code / p) % 2 == 0 then low + p else RevInc(j - 1, low)
  {
  }

  /** The carry loop adds one to the code it holds reversed, modulo 2^j. */
  lemma {:induction false} RevIncAddsOne(j: nat, code: nat)
    requires code < Pow2(j)
    ensures RevInc(j, code) == Rev(j, (Rev(j, code) + 1) % Pow2(j))
  {
    hide Rev; hide Pow2; hide RevInc;
    if j > 0 {
      var top, low, r := RevSplit(j, code);
      if top == 0 {
        RevIncEven(j - 1, r, low);
      } else {
        RevIncAddsOne(j - 1, low);
        RevIncOdd(j - 1, r);
      }
    } else {
      RevIncNone(code);
    }
  }

  lemma RevIncNone(code: nat)
    requires code < Pow2(0)
    ensures RevInc(0, code) == Rev(0, (Rev(0, code) + 1) % Pow2(0))
  {
  }

  /** The highest bit of a code is the lowest of its reversal. */
  lemma RevSplit(j: nat, code: nat) returns (top: nat, low: nat, r: nat)
    requires j > 0 && code < Pow2(j)
    ensures top < 2 && low < Pow2(j - 1) && r == Rev(j - 1, low) < Pow2(j - 1) && Rev(j, code) == 2 * r + top
    ensures RevInc(j, code) == if top == 0 then low + Pow2(j - 1) else RevInc(j - 1, low)
  {
    hide Rev; hide Pow2; hide RevInc;
    top, low := (code / Pow2(j - 1)) % 2, code % Pow2(j - 1);
    r := Rev(j - 1, low);
    RevIncTop(j, code);
    TopBit(j, code);
    RevCons(j - 1, top, low);
  }

  lemma SplitTop(k: nat, code: nat)
    requires 1 <= k
    ensures ((code % Pow2(k)) / Pow2(k - 1)) % 2 == (code / Pow2(k - 1)) % 2
    ensures (code % Pow2(k)) % Pow2(k - 1) == code % Pow2(k - 1)
  {
    OneBit();
    hide Pow2;
    Split(code, k - 1, 1);
    HalfOfHalf((code / Pow2(k - 1)) % 2);
  }

  lemma OneBit()
    ensures Pow2(1) == 2
  {
  }

  lemma HalfOfHalf(x: nat)
    requires x < 2
    ensures x % 2 == x
  {
  }

  lemma RevIncUnfold(k: nat, code: nat)
    requires 1 <= k
    ensures RevInc(k, code % Pow2(k))
         == if (code / Pow2(k - 1)) % 2 == 0 then code % Pow2(k - 1) + Pow2(k - 1) else RevInc(k - 1, code % Pow2(k - 1))
  {
    hide Pow2;
    SplitTop(k, code);
    assert RevInc(k, code % Pow2(k))
        == if ((code % Pow2(k)) / Pow2(k - 1)) % 2 == 0 then (code % Pow2(k)) % Pow2(k - 1) + Pow2(k - 1)
           else RevInc(k - 1, (code % Pow2(k)) % Pow2(k - 1));
  }

  method AdvanceCode(j: nat, code: nat) returns (r: nat)
    requires 1 <= j && code < Pow2(j)
    ensures r == Rev(j, Low(Rev(j, code) + 1, j)) && r < Pow2(j)
  {
    hide Rev; hide RevInc;
    RevIncAddsOne(j, code);
    DivModUnique(code, Pow2(j), 0, code);
    NoWidth(code % Pow2(0));
    var incr := Pow2(j - 1);
    ghost var k: nat := j;
    while incr != 0 && (code / incr) % 2 != 0
      invariant k <= j && incr == (if k == 0 then 0 else Pow2(k - 1))
      invariant RevInc(j, code) == RevInc(k, code % Pow2(k))
      decreases k
    {
      RevIncUnfold(k, code);
      incr := incr / 2;
      k := k - 1;
    }
    if incr == 0 {
      r := 0;
    } else {
      RevIncUnfold(k, code);
      r := code % incr + incr;
    }
  }

  /** A carry that starts k places below the top leaves the top k bits alone. */
  ghost function RevAddBit(j: nat, code: nat, k: nat): int
    requires k <= j
  {
    code - code % Pow2(j - k) + RevInc(j - k, code % Pow2(j - k))
  }

  lemma AddAtBit(y: nat, z: nat, k: nat, n: nat)
    requires z < Pow2(k)
    ensures (y * Pow2(k) + z + Pow2(k)) % Pow2(k + n) == ((y + 1) % Pow2(n)) * Pow2(k) + z
  {
    var x := (y + 1) * Pow2(k) + z;
    MulDist(y, 1, Pow2(k));
    DivModUnique(x, Pow2(k), y + 1, z);
    Split(x, k, n);
  }

  lemma RevAddAt(k: nat, n: nat, hi: nat, low: nat)
    requires hi < Pow2(k) && low < Pow2(n)
    ensures Rev(k + n, (Rev(k + n, hi * Pow2(n) + low) + Pow2(k)) % Pow2(k + n)) == hi * Pow2(n) + RevInc(n, low)
  {
    hide Rev; hide Pow2; hide RevInc;
    var y, z := Rev(n, low), Rev(k, hi);
    RevIncAddsOne(n, low);
    RevConcat(k, hi, n, low);
    AddAtBit(y, z, k, n);
    RevSwap(n, (y + 1) % Pow2(n), k, z);
    RevRev(k, hi);
  }

  lemma RevSwap(n: nat, y: nat, k: nat, z: nat)
    requires z < Pow2(k)
    ensures Rev(k + n, y * Pow2(k) + z) == Rev(k, z) * Pow2(n) + Rev(n, y)
  {
    hide Rev; hide Pow2;
    assert k + n == n + k;
    RevConcat(n, y, k, z);
  }

  lemma RevAddBitAdds(j: nat, code: nat, k: nat)
    requires k < j && code < Pow2(j)
    ensures RevAddBit(j, code, k) == Rev(j, (Rev(j, code) + Pow2(k)) % Pow2(j))
    ensures RevAddBit(j, code, k) < Pow2(j)
  {
    hide Rev; hide Pow2; hide RevInc;
    var n := j - k;
    var p := Pow2(n);
    assert code / p < Pow2(k) by { Pow2Add(k, n); DivBound(code, p, Pow2(k)); }
    assert code - code % p == code / p * p;
    RevAddAt(k, n, code / p, code % p);
  }

  lemma BitAboveMultiple(h: nat, low: nat, p: nat)
    requires p > 0
    ensures ((h * 2 * p + low) / p) % 2 == (low / p) % 2
  {
    MulDist(h * 2, low / p, p);
    DivModUnique(h * 2 * p + low, p, h * 2 + low / p, low % p);
  }

  /** Bit k of a word only depends on what lies below any higher bit position n. */
  lemma BitOfLow(high: nat, low: nat, n: nat, k: nat)
    requires k < n && high % Pow2(n) == 0
    ensures ((high + low) / Pow2(k)) % 2 == (low / Pow2(k)) % 2
  {
    var h, q, p := high / Pow2(n), Pow2(n - k - 1), Pow2(k);
    assert Pow2(n) == 2 * q * p by { Pow2Add(n - k, k); }
    hide Pow2;
    assert high == h * (2 * q * p);
    MulAssoc(h, 2 * q, p);
    MulAssoc(h, 2, q);
    assert high == (h * q) * 2 * p;
    BitAboveMultiple(h * q, low, p);
  }

  lemma CarryStep(n: nat, high: nat, low: nat, w: nat)
    requires 1 <= w <= n && low < Pow2(w) && high % Pow2(n) == 0
    ensures ((high + low) / Pow2(w - 1)) % 2 == 0 ==> RevInc(w, low) == low + Pow2(w - 1)
    ensures ((high + low) / Pow2(w - 1)) % 2 != 0 ==>
              0 <= low - Pow2(w - 1) < Pow2(w - 1) && RevInc(w, low) == RevInc(w - 1, low - Pow2(w - 1))
  {
    var p := Pow2(w - 1);
    assert RevInc(w, low) == if (low / p) % 2 == 0 then low % p + p else RevInc(w - 1, low % p);
    hide Pow2; hide RevInc;
    BitOfLow(high, low, n, w - 1);
    TopBit(w, low);
  }

  lemma CarryStart(j: nat, code: nat, k: nat) returns (high: nat, low: nat)
    requires k < j && code < Pow2(j)
    ensures code == high + low && low < Pow2(j - k) && high % Pow2(j - k) == 0
    ensures high + RevInc(j - k, low) == Rev(j, Low(Rev(j, code) + Pow2(k), j)) < Pow2(j)
  {
    hide Rev; hide RevInc; hide Pow2;
    RevAddBitAdds(j, code, k);
    TopPart(code, Pow2(j - k));
    low := code % Pow2(j - k);
    high := code - low;
  }

  /** The inner loop of the reversed addition: carry from bit j - k - 1 downwards. */
  method AddBit(j: nat, code: nat, k: nat) returns (r: nat)
    requires k < j && code < Pow2(j)
    ensures r == Rev(j, Low(Rev(j, code) + Pow2(k), j)) && r < Pow2(j)
  {
    hide Rev; hide RevInc; hide Low;
    ghost var n := j - k;
    ghost var high: nat, low: nat := CarryStart(j, code, k);
    ghost var sum := Rev(j, Low(Rev(j, code) + Pow2(k), j));
    r := code;
    var m, bit := 0, Pow2(j - k - 1);
    while m < j - k
      invariant m <= n && (m < n ==> bit == Pow2(n - m - 1))
      invariant low < Pow2(n - m) && r == high + low
      invariant sum == high + RevInc(n - m, low)
    {
      CarryStep(n, high, low, n - m);
      if (r / bit) % 2 == 0 {
        r := r + bit;
        return;
      }
      r := r - bit;
      low := low - bit;
      m, bit := m + 1, bit / 2;
    }
    NoWidth(low);
  }

  lemma NoWidth(low: nat)
    ensures RevInc(0, low) == 0 && Pow2(0) == 1
  {
  }

  lemma AddMod(x: nat, y: nat, p: nat)
    requires p > 0
    ensures (x % p + y) % p == (x + y) % p
  {
    var z := x % p + y;
    assert x + y == (x / p + z / p) * p + z % p by { MulDist(x / p, z / p, p); }
    DivModUnique(x + y, p, x / p + z / p, z % p);
  }

  lemma AddLow(x: nat, y: nat, j: nat)
    ensures Low(Low(x, j) + y, j) == Low(x + y, j)
  {
    hide Pow2;
    AddMod(x, y, Pow2(j));
  }

  lemma TopPart(x: nat, p: nat)
    requires p > 0
    ensures x % p <= x && (x - x % p) / p == x / p && (x - x % p) % p == 0
  {
    MulMono(0, x / p, p);
    DivModUnique(x - x % p, p, x / p, 0);
  }

  lemma NextBit(x: nat, k: nat)
    ensures Bit(x, k) ==> Low(x, k + 1) == Low(x, k) + Pow2(k)
    ensures !Bit(x, k) ==> Low(x, k + 1) == Low(x, k)
    ensures Bit(x - Low(x, k), k) == Bit(x, k)
  {
    assert Pow2(1) == 2;
    hide Pow2;
    Split(x, k, 1);
    TopPart(x, Pow2(k));
  }

  /** Reversed addition of a count: bit by bit, lowest first; what does not fit in j bits
      is left over. */
  method AddCount(j: nat, code: nat, jcnt: nat) returns (r: nat, rest: nat)
    requires code < Pow2(j)
    ensures r == Rev(j, Low(Rev(j, code) + jcnt, j)) && r < Pow2(j)
    ensures rest == 0 <==> jcnt < Pow2(j)
  {
    hide Rev; hide Low; hide Bit;
    ghost var x := Rev(j, code);
    r, rest := code, jcnt;
    AddNothing(j, code, jcnt);
    for k := 0 to j
      invariant r < Pow2(j) && r == Rev(j, Low(x + Low(jcnt, k), j))
      invariant rest == jcnt - Low(jcnt, k)
    {
      NextBit(jcnt, k);
      if Bit(rest, k) {
        AddStep(j, x, Low(jcnt, k), k);
        r := AddBit(j, r, k);
        rest := rest - Pow2(k);
      }
    }
    AddLow(jcnt, x, j);
  }

  lemma AddNothing(j: nat, code: nat, jcnt: nat)
    requires code < Pow2(j)
    ensures Low(jcnt, 0) == 0 && Rev(j, Low(Rev(j, code), j)) == code
  {
    RevRev(j, code);
  }

  lemma AddStep(j: nat, x: nat, c: nat, k: nat)
    ensures Rev(j, Low(Rev(j, Rev(j, Low(x + c, j))) + Pow2(k), j)) == Rev(j, Low(x + (c + Pow2(k)), j))
  {
    hide Rev; hide Low;
    RevRev(j, Low(x + c, j));
    AddLow(x + c, Pow2(k), j);
  }

  /** Going to the next length appends a zero to the code and leaves its reversal alone. */
  lemma LongerCode(j: nat, x: nat)
    ensures Rev(j, Low(x, j)) == Rev(j + 1, Low(2 * x, j + 1))
  {
    DoubleMod(x, Pow2(j));
    EvenPart(j, x % Pow2(j));
  }
}
