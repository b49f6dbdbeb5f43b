/**
 LEB128 numbers (section 7.6 of DWARF 5) and the buffer they are read from.
 */
module Leb128 {
  import opened Bits

  const WORD: nat := 0x1_0000_0000_0000_0000

  /** value and how many bytes it took; not ok when the bytes run out. */
  datatype Number = Number(value: nat, used: nat, ok: bool)

  /** What one byte contributes at the given shift in 64-bit arithmetic: its low seven bits,
      shifted left and cut to 64 bits. */
  function Term(b: nat, shift: nat): nat {
    if shift < 64 then ((b % 128) * Pow2(shift)) % WORD else 0
  }

  /** The sign extension of a number whose last byte was b. */
  function SignTerm(b: nat, shift: nat): nat {
    if (b / 64) % 2 == 1 && shift < 64 then PowerInWord(shift); WORD - Pow2(shift) else 0
  }

  lemma PowerInWord(shift: nat)
    requires shift < 64
    ensures Pow2(shift) < WORD
  {
    Powers64();
    Pow2Strict(shift, 64);
  }

  function Uleb(b: seq<nat>, shift: nat): (r: Number)
    ensures r.used <= |b| && (r.ok ==> r.used >= 1) && (!r.ok ==> r.used == |b| && r.value == 0)
    decreases |b|
  {
    if |b| == 0 then Number(0, 0, false)
    else if b[0] < 128 then Number(Term(b[0], shift), 1, true)
    else
      var r := Uleb(b[1..], shift + 7);
      Number(if r.ok then Term(b[0], shift) + r.value else 0, r.used + 1, r.ok)
  }

  /** The unsigned 64-bit pattern of a signed number, modulo 2^64. */
  function Sleb(b: seq<nat>, shift: nat): (r: Number)
    ensures r.used <= |b| && (r.ok ==> r.used >= 1) && (!r.ok ==> r.used == |b| && r.value == 0)
    decreases |b|
  {
    if |b| == 0 then Number(0, 0, false)
    else if b[0] < 128 then Number(Term(b[0], shift) + SignTerm(b[0], shift + 7), 1, true)
    else
      var r := Sleb(b[1..], shift + 7);
      Number(if r.ok then Term(b[0], shift) + r.value else 0, r.used + 1, r.ok)
  }

  function Signed(u: int): int {
    if u >= WORD / 2 then u - WORD else u
  }

  // ----- canonical encodings

  function EncodeU(v: nat): (r: seq<nat>)
    ensures |r| >= 1
  {
    if v < 128 then [v] else [v % 128 + 128] + EncodeU(v / 128)
  }

  function EncodeS(v: int): (r: seq<nat>)
    ensures |r| >= 1
    decreases if v < 0 then -v else v
  {
    if -64 <= v < 64 then [v % 128] else [v % 128 + 128] + EncodeS(v / 128)
  }

  /** Examples of table 7.7 and 7.8 of DWARF 5. */
  lemma Examples()
    ensures EncodeU(127) == [0x7f] && EncodeU(128) == [0x80, 0x01] && EncodeU(12857) == [0xb9, 0x64]
    ensures EncodeS(-2) == [0x7e] && EncodeS(127) == [0xff, 0x00] && EncodeS(-127) == [0x81, 0x7f]
    ensures EncodeS(129) == [0x81, 0x01] && EncodeS(-129) == [0xff, 0x7e]
  {
    assert EncodeU(1) == [0x01] && EncodeU(100) == [0x64];
    assert EncodeS(0) == [0x00] && EncodeS(-1) == [0x7f] && EncodeS(1) == [0x01] && EncodeS(-2) == [0x7e];
  }

  lemma Powers64()
    ensures Pow2(64) == WORD && Pow2(63) == WORD / 2
  {
    Pow2Values();
    Pow2Add(15, 15);
    Pow2Add(30, 15);
    Pow2Add(45, 15);
    assert Pow2(63) == 8 * Pow2(60);
  }

  lemma TermFits(b: nat, shift: nat)
    requires (b % 128) * Pow2(shift) < WORD && shift < 64
    ensures Term(b, shift) == (b % 128) * Pow2(shift)
  {
    hide Pow2;
    MulMono(0, b % 128, Pow2(shift));
  }

  /** A 64-bit number needs no bit above the word, so no term is cut off. */
  lemma {:induction false} DecodeEncodeU(v: nat, shift: nat, rest: seq<nat>)
    requires v * Pow2(shift) < WORD && shift < 64
    ensures Uleb(EncodeU(v) + rest, shift) == Number(v * Pow2(shift), |EncodeU(v)|, true)
    decreases v
  {
    hide Pow2; hide Term;
    if v < 128 {
      TermFits(v, shift);
    } else {
      var lo, hi := v % 128, v / 128;
      SevenBits(v, shift);
      TermFits(lo + 128, shift);
      DecodeEncodeU(hi, shift + 7, rest);
      var b := EncodeU(v) + rest;
      assert b[1..] == EncodeU(hi) + rest && b[0] == lo + 128;
    }
  }

  /** The lowest seven bits and the rest, moved to their place. */
  lemma SevenBits(v: nat, shift: nat)
    requires v >= 128 && v * Pow2(shift) < WORD && shift < 64
    ensures var lo, hi := v % 128, v / 128;
            && shift + 7 < 64 && 0 <= lo * Pow2(shift) < WORD && 0 <= hi * Pow2(shift + 7) < WORD
            && v * Pow2(shift) == hi * Pow2(shift + 7) + lo * Pow2(shift)
  {
    hide Pow2;
    var p, lo, hi := Pow2(shift), v % 128, v / 128;
    Pow2Add(7, shift);
    Pow2Values();
    assert v * p == hi * (128 * p) + lo * p by { MulDist(128 * hi, lo, p); MulAssoc(hi, 128, p); }
    MulMono(0, lo, p);
    MulMono(1, hi, 128 * p);
    if shift + 7 >= 64 {
      Pow2Mono(64, shift + 7);
      Powers64();
    }
  }

  /** Reading a canonical unsigned number gives it back, whatever follows. */
  lemma UlebRoundTrip(v: nat, rest: seq<nat>)
    requires v < WORD
    ensures Uleb(EncodeU(v) + rest, 0) == Number(v, |EncodeU(v)|, true)
  {
    assert Pow2(0) == 1 && v * 1 == v;
    DecodeEncodeU(v, 0, rest);
  }

  // ----- signed numbers, modulo 2^64

  ghost predicate Congruent(x: int, y: int) {
    (x - y) % WORD == 0
  }

  lemma CongruentAdd(x: int, y: int, u: int, v: int)
    requires Congruent(x, y) && Congruent(u, v)
    ensures Congruent(x + u, y + v)
  {
  }

  lemma TermCongruent(b: nat, shift: nat)
    requires shift <= 63
    ensures Congruent(Term(b, shift), (b % 128) * Pow2(shift))
  {
    hide Pow2;
    var x := (b % 128) * Pow2(shift);
    MulMono(0, b % 128, Pow2(shift));
    assert x % WORD == x - WORD * (x / WORD);
  }

  /** The last byte of a signed number, with its sign extension. */
  lemma LastCongruent(v: int, shift: nat)
    requires -64 <= v < 64 && shift <= 63 && shift % 7 == 0 && (shift == 63 ==> -1 <= v < 1)
    ensures Congruent(Term(v % 128, shift) + SignTerm(v % 128, shift + 7), v * Pow2(shift))
  {
    hide *;
    TermCongruent(v % 128, shift);
    Place(shift);
    SignOfLast(v, shift);
    LastByte(v, Pow2(shift), Pow2(shift + 7), Term(v % 128, shift), SignTerm(v % 128, shift + 7), shift);
  }

  lemma Place(shift: nat)
    ensures Pow2(shift + 7) == 128 * Pow2(shift)
    ensures shift == 63 ==> Pow2(shift + 7) == 64 * WORD
  {
    Pow2Add(7, shift);
    Pow2Values();
    Powers64();
  }

  lemma SignOfLast(v: int, shift: nat)
    requires -64 <= v < 64
    ensures SignTerm(v % 128, shift + 7) == if v < 0 && shift + 7 < 64 then WORD - Pow2(shift + 7) else 0
  {
    hide Pow2;
  }

  lemma LastByte(v: int, p: nat, p7: nat, t: nat, s: nat, shift: nat)
    requires -64 <= v < 64 && Congruent(t, (v % 128) * p) && p7 == 128 * p
    requires s == if v < 0 && shift + 7 < 64 then WORD - p7 else 0
    requires shift + 7 < 64 || (shift == 63 && p7 == 64 * WORD)
    ensures Congruent(t + s, v * p)
  {
    if v < 0 {
      MulDist(v, 128, p);
      assert (v % 128) * p == v * p + p7;
      var x, y := (v % 128) * p, v * p;
      hide *;
      Shifted(t, s, x, y, p7);
    } else {
      assert v % 128 == v;
    }
  }

  lemma Shifted(t: int, s: int, x: int, y: int, q: int)
    requires Congruent(t, x) && x == y + q && (s == WORD - q || (s == 0 && q == 64 * WORD))
    ensures Congruent(t + s, y)
  {
  }

  /** Reading the encoding of v contributes v * 2^shift modulo 2^64. */
  lemma {:induction false} DecodeEncodeS(v: int, shift: nat, rest: seq<nat>)
    requires shift <= 63 && shift % 7 == 0 && 0 - Pow2(63 - shift) <= v < Pow2(63 - shift)
    ensures var r := Sleb(EncodeS(v) + rest, shift);
            r.ok && r.used == |EncodeS(v)| && Congruent(r.value, v * Pow2(shift))
    decreases if v < 0 then -v else v
  {
    hide *;
    if -64 <= v < 64 {
      LastPlace(v, shift);
      ShortSigned(v, shift, rest);
      LastCongruent(v, shift);
    } else {
      var b, b', lo: nat, hi := EncodeS(v) + rest, EncodeS(v / 128) + rest, v % 128, v / 128;
      ShortShift(v, shift);
      LongSigned(v, shift, rest);
      Quotient(v, shift);
      DecodeEncodeS(hi, shift + 7, rest);
      TermCongruent(lo + 128, shift);
      SplitSigned(v, hi, lo, shift);
      CongruentAdd(Term(lo + 128, shift), lo * Pow2(shift), Sleb(b', shift + 7).value, hi * Pow2(shift + 7));
    }
  }

  lemma LastPlace(v: int, shift: nat)
    requires shift <= 63 && 0 - Pow2(63 - shift) <= v < Pow2(63 - shift)
    ensures shift == 63 ==> -1 <= v < 1
  {
    assert Pow2(0) == 1;
  }

  lemma ShortSigned(v: int, shift: nat, rest: seq<nat>)
    requires -64 <= v < 64
    ensures |EncodeS(v)| == 1
    ensures Sleb(EncodeS(v) + rest, shift) == Number(Term(v % 128, shift) + SignTerm(v % 128, shift + 7), 1, true)
  {
    hide Term; hide SignTerm;
  }

  /** Reading a longer number reads its first byte and then a shorter number. */
  lemma LongSigned(v: int, shift: nat, rest: seq<nat>)
    requires !(-64 <= v < 64)
    ensures |EncodeS(v)| == 1 + |EncodeS(v / 128)|
    ensures var r := Sleb(EncodeS(v / 128) + rest, shift + 7);
            Sleb(EncodeS(v) + rest, shift) == Number(if r.ok then Term(v % 128 + 128, shift) + r.value else 0, r.used + 1, r.ok)
  {
    var b := EncodeS(v) + rest;
    assert b[1..] == EncodeS(v / 128) + rest && b[0] == v % 128 + 128;
  }

  lemma Quotient(v: int, shift: nat)
    requires shift + 7 <= 63 && 0 - Pow2(63 - shift) <= v < Pow2(63 - shift)
    ensures 0 - Pow2(63 - (shift + 7)) <= v / 128 < Pow2(63 - (shift + 7))
    ensures v == 128 * (v / 128) + v % 128
  {
    Pow2Add(7, 63 - (shift + 7));
    Pow2Values();
  }

  lemma ShortShift(v: int, shift: nat)
    requires shift <= 63 && shift % 7 == 0 && !(-64 <= v < 64) && 0 - Pow2(63 - shift) <= v < Pow2(63 - shift)
    ensures shift + 7 <= 63
  {
    assert Pow2(0) == 1;
  }

  lemma SplitSigned(v: int, hi: int, lo: int, shift: nat)
    requires v == 128 * hi + lo
    ensures v * Pow2(shift) == lo * Pow2(shift) + hi * Pow2(shift + 7)
  {
    assert Pow2(shift + 7) == 128 * Pow2(shift) by { Pow2Add(7, shift); Pow2Values(); }
    hide Pow2;
    MulDist(128 * hi, lo, Pow2(shift));
    MulAssoc(hi, 128, Pow2(shift));
  }

  // ----- the fields that are or-ed together never overlap

  /** A term is a multiple of its place value and fits in the word. */
  lemma TermPlace(b: nat, shift: nat)
    requires shift < 64
    ensures Term(b, shift) % Pow2(shift) == 0
    ensures Term(b, shift) <= WORD - Pow2(shift)
    ensures Term(b, shift) <= 127 * Pow2(shift)
  {
    Powers64();
    Pow2Add(64 - shift, shift);
    hide Pow2;
    CutMultiple(b % 128, Pow2(shift), Pow2(64 - shift));
    MulMono(b % 128, 127, Pow2(shift));
  }

  /** Cutting a multiple of p to a word of n places of p leaves a multiple of p. */
  lemma CutMultiple(q: nat, p: nat, n: nat)
    requires p > 0 && n > 0
    ensures n * p > 0
    ensures var t := (q * p) % (n * p);
            t % p == 0 && t <= n * p - p && t <= q * p
  {
    MulMono(1, n, p);
    var k := q % n;
    assert q == (q / n) * n + k;
    MulDist((q / n) * n, k, p);
    MulAssoc(q / n, n, p);
    MulMono(0, k, p);
    MulMono(k + 1, n, p);
    MulDist(k, 1, p);
    DivModUnique(q * p, n * p, q / n, k * p);
    DivModUnique(k * p, p, k, 0);
    ModFacts(q, n);
    MulMono(k, q, p);
  }

  ghost predicate Placed(v: int, shift: nat) {
    0 <= v && if shift < 64 then v <= WORD - Pow2(shift) && v % Pow2(shift) == 0 else v == 0
  }

  lemma SignPlaced(b: nat, shift: nat)
    ensures Placed(SignTerm(b, shift), shift)
  {
    if shift < 64 {
      var n := 64 - shift;
      Powers64();
      Pow2Add(n, shift);
      Pow2Mono(0, n);
      hide Pow2;
      var p := Pow2(shift);
      MulDist(Pow2(n) - 1, 1, p);
      DivModUnique(WORD - p, p, Pow2(n) - 1, 0);
      MulMono(0, Pow2(n) - 1, p);
      DivModUnique(0, p, 0, 0);
    }
  }

  /** Adding a byte below what the later bytes contribute. */
  lemma PlacedAdd(b: nat, shift: nat, v: int)
    requires Placed(v, shift + 7)
    ensures Placed(Term(b, shift) + v, shift)
  {
    if shift < 64 {
      TermPlace(b, shift);
      var p := Pow2(shift);
      assert Pow2(shift + 7) == 128 * p by { Pow2Add(7, shift); Pow2Values(); }
      hide Pow2; hide Term;
      if shift + 7 < 64 {
        AddMultiples(Term(b, shift), v, p);
      }
    }
  }

  lemma AddMultiples(t: int, v: int, p: nat)
    requires p > 0 && t % p == 0 && v % (128 * p) == 0
    ensures (t + v) % p == 0
  {
    var k := v / (128 * p);
    assert v == k * 128 * p by { MulAssoc(k, 128, p); }
    MulDist(t / p, k * 128, p);
    DivModUnique(t + v, p, t / p + k * 128, 0);
  }

  lemma {:induction false} SlebPlaced(b: seq<nat>, shift: nat)
    ensures Sleb(b, shift).ok ==> Placed(Sleb(b, shift).value, shift)
    decreases |b|
  {
    if |b| > 0 {
      hide Placed; hide Term; hide SignTerm;
      if b[0] < 128 {
        SignPlaced(b[0], shift + 7);
        PlacedAdd(b[0], shift, SignTerm(b[0], shift + 7));
      } else if Sleb(b, shift).ok {
        SlebPlaced(b[1..], shift + 7);
        PlacedAdd(b[0], shift, Sleb(b[1..], shift + 7).value);
      }
    }
  }

  lemma SignedOf(u: int, v: int)
    requires Placed(u, 0) && Congruent(u, v) && -(WORD / 2) <= v < WORD / 2
    ensures Signed(u) == v
  {
    assert Pow2(0) == 1;
    hide Pow2;
  }

  lemma Half()
    ensures WORD / 2 * 2 == WORD
  {
  }

  /** Reading a canonical signed number gives it back, whatever follows. */
  lemma SlebRoundTrip(v: int, rest: seq<nat>)
    requires -(WORD / 2) <= v < WORD / 2
    ensures var r := Sleb(EncodeS(v) + rest, 0);
            r.ok && r.used == |EncodeS(v)| && Signed(r.value) == v
  {
    hide *;
    Powers64();
    Half();
    DecodeEncodeS(v, 0, rest);
    SlebPlaced(EncodeS(v) + rest, 0);
    Pow2Values();
    var u := Sleb(EncodeS(v) + rest, 0).value;
    assert v * 1 == v;
    SignedOf(u, v);
  }

  // ----- the buffer

  /** The bitwise or of two naturals. */
  function Or(x: nat, y: nat): (r: nat)
    decreases x + y
  {
    if x == 0 && y == 0 then 0
    else (if x % 2 == 1 || y % 2 == 1 then 1 else 0) + 2 * Or(x / 2, y / 2)
  }

  lemma {:induction false} OrZero(y: nat)
    ensures Or(0, y) == y
  {
    if y > 0 {
      OrZero(y / 2);
    }
  }

  lemma {:induction false} OrDisjoint(x: nat, y: nat, k: nat)
    requires x < Pow2(k) && y % Pow2(k) == 0
    ensures Or(x, y) == x + y
    decreases k
  {
    if k == 0 {
      OrZero(y);
    } else {
      var p := Pow2(k - 1);
      var q := y / (2 * p);
      assert y == q * p * 2 by { MulAssoc(q, 2, p); }
      DivModUnique(y / 2, p, q, 0);
      OrDisjoint(x / 2, y / 2, k - 1);
    }
  }

  ghost predicate Accumulated(v: int, shift: nat) {
    0 <= v && if shift < 64 then v < Pow2(shift) else v < WORD
  }

  lemma AccumulateTerm(v: nat, b: nat, shift: nat)
    requires Accumulated(v, shift) && shift < 64
    ensures Or(v, Term(b, shift)) == v + Term(b, shift)
    ensures Accumulated(v + Term(b, shift), shift + 7)
  {
    TermPlace(b, shift);
    OrDisjoint(v, Term(b, shift), shift);
    assert Pow2(shift + 7) == 128 * Pow2(shift) by { Pow2Add(7, shift); Pow2Values(); }
    hide Pow2; hide Term; hide Or;
  }

  lemma AccumulateSign(v: nat, b: nat, shift: nat)
    requires Accumulated(v, shift) && shift < 64
    ensures Or(v, SignTerm(b, shift)) == v + SignTerm(b, shift) < WORD
  {
    SignPlaced(b, shift);
    OrDisjoint(v, SignTerm(b, shift), shift);
    hide Or;
  }

  lemma Unfold(data: seq<nat>, pos: nat, shift: nat)
    requires pos < |data|
    ensures data[pos..][0] == data[pos] && data[pos..][1..] == data[pos + 1..]
  {
  }

  /** A section being read. The left count of the source is |data| - pos. */
  class DwarfBuf {
    const data: seq<nat>
    var pos: nat
    var underflow: bool

    ghost predicate Valid()
      reads this
    {
      pos <= |data|
    }

    /** The bytes not yet read. */
    ghost function Left(): seq<nat>
      reads this
      requires Valid()
    {
      data[pos..]
    }

    constructor (data: seq<nat>, pos: nat, underflow: bool)
      requires pos <= |data|
      ensures Valid() && this.data == data && this.pos == pos && this.underflow == underflow
    {
      this.data, this.pos, this.underflow := data, pos, underflow;
    }

    method Advance(count: nat) returns (ok: bool)
      requires Valid()
      modifies this
      ensures Valid()
      ensures ok == (count <= |data| - old(pos))
      ensures pos == if ok then old(pos) + count else old(pos)
      ensures underflow == (old(underflow) || !ok)
    {
      if count <= |data| - pos {
        pos := pos + count;
        return true;
      }
      underflow := true;
      return false;
    }

    method ReadByte() returns (b: nat)
      requires Valid()
      modifies this
      ensures Valid()
      ensures b == if old(pos) < |data| then data[old(pos)] else 0
      ensures pos == if old(pos) < |data| then old(pos) + 1 else old(pos)
      ensures underflow == (old(underflow) || old(pos) >= |data|)
    {
      var p := pos;
      var ok := Advance(1);
      return if ok then data[p] else 0;
    }

    method ReadUleb() returns (v: nat)
      requires Valid()
      modifies this
      ensures Valid()
      ensures var r := Uleb(data[old(pos)..], 0);
              v == r.value && pos == old(pos) + r.used && underflow == (old(underflow) || !r.ok)
      ensures v < WORD
    {
      ghost var all := Uleb(data[pos..], 0);
      v := 0;
      var shift: nat, more := 0, true;
      while more
        invariant Valid() && old(pos) <= pos
        invariant Accumulated(v, shift)
        invariant more ==> underflow == old(underflow)
        invariant more ==> var r := Uleb(data[pos..], shift);
          all == Number(if r.ok then v + r.value else 0, pos - old(pos) + r.used, r.ok)
        invariant !more ==> all == Number(v, pos - old(pos), true) && underflow == old(underflow)
        decreases more, |data| - pos
      {
        hide Accumulated; hide Term; hide Or;
        var p := pos;
        var ok := Advance(1);
        if !ok {
          return 0;
        }
        Unfold(data, p, shift);
        var b := data[p];
        if shift < 64 {
          AccumulateTerm(v, b, shift);
          v := Or(v, Term(b, shift));
        } else {
          Past(v, b, shift);
        }
        shift := shift + 7;
        more := b >= 128;
      }
      FinalWord(v, shift);
    }

    method ReadSleb() returns (v: int)
      requires Valid()
      modifies this
      ensures Valid()
      ensures var r := Sleb(data[old(pos)..], 0);
              v == Signed(r.value) && pos == old(pos) + r.used && underflow == (old(underflow) || !r.ok)
    {
      ghost var all := Sleb(data[pos..], 0);
      var val: nat := 0;
      var shift: nat, more, b: nat := 0, true, 0;
      while more
        invariant Valid() && old(pos) <= pos
        invariant Accumulated(val, shift)
        invariant more ==> underflow == old(underflow)
        invariant more ==> var r := Sleb(data[pos..], shift);
          all == Number(if r.ok then val + r.value else 0, pos - old(pos) + r.used, r.ok)
        invariant !more ==> all == Number(val + SignTerm(b, shift), pos - old(pos), true) && underflow == old(underflow)
        decreases more, |data| - pos
      {
        hide Accumulated; hide Term; hide Or; hide SignTerm;
        var p := pos;
        var ok := Advance(1);
        if !ok {
          return 0;
        }
        Unfold(data, p, shift);
        b := data[p];
        if shift < 64 {
          AccumulateTerm(val, b, shift);
          val := Or(val, Term(b, shift));
        } else {
          Past(val, b, shift);
        }
        shift := shift + 7;
        more := b >= 128;
      }
      if (b / 64) % 2 == 1 && shift < 64 {
        AccumulateSign(val, b, shift);
        val := Or(val, SignTerm(b, shift));
      }
      v := Signed(val);
    }
  }

  lemma Past(v: nat, b: nat, shift: nat)
    requires Accumulated(v, shift) && shift >= 64
    ensures Term(b, shift) == 0 && Accumulated(v, shift + 7)
  {
  }

  lemma FinalWord(v: nat, shift: nat)
    requires Accumulated(v, shift)
    ensures v < WORD
  {
    if shift < 64 {
      Pow2Mono(shift, 64);
      Powers64();
    }
  }
}
