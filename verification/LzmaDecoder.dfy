/**
 The LZMA decoder as it runs: 32-bit range and code, one array of probabilities, the state
 and the last four distances, and the packet loop of a chunk.
 */
module LzmaDecoder {
  import opened Bits
  import opened LzmaRange
  import opened LzmaPackets
  import opened LzmaStream

  class RangeDecoder {
    const input: seq<nat>
    const probs: array<nat>
    var off: nat
    var range: nat
    var code: nat

    ghost function State(): Decoder
      reads this, probs
    {
      Decoder(off, range, code, probs[..])
    }

    ghost predicate Valid()
      reads this, probs
    {
      Words(State()) && probs.Length == TOTAL
    }

    constructor (input: seq<nat>, probs: array<nat>, start: nat)
      requires AllBytes(input) && start + 4 <= |input| && probs.Length == TOTAL && Probabilities(probs[..])
      ensures Valid() && this.input == input && this.probs == probs
      ensures State() == Start(input, start, probs[..])
    {
      this.input := input;
      this.probs := probs;
      range := WORD - 1;
      code := input[start] * 0x100_0000 + input[start + 1] * 0x1_0000 + input[start + 2] * 0x100 + input[start + 3];
      off := start + 4;
      FourBytes(input, start);
    }

    method NormalizeRange()
      requires Valid()
      modifies this
      ensures Valid() && State() == Normalize(input, old(State()))
    {
      if range < TOP {
        if off >= |input| {
          return;
        }
        range := range * 256 % WORD;
        code := code * 256 % WORD;
        code := (code + input[off]) % WORD;
        off := off + 1;
      }
    }

    method Bit(index: nat) returns (bit: bool)
      requires Valid() && index < TOTAL
      modifies this, probs
      ensures Valid() && Path(input, old(State()), Ask(index, bit), State())
    {
      ghost var d := State();
      NormalizeRange();
      ghost var n := State();
      var p := probs[index];
      var bound := Bound(range, p) % WORD;
      if code < bound {
        range := bound;
        probs[index] := p + (ONE - p) / 32;
        bit := false;
      } else {
        range := (range - bound) % WORD;
        code := code - bound;
        probs[index] := p - p / 32;
        bit := true;
      }
      assert probs[..] == n.probs[index := Adapt(p, bit)];
      assert State() == ReadBit(input, d, Context(index)).1;
      PathOne(input, d, Context(index));
    }

    /** Halve the range; the sign bit of the difference says which half it is. */
    method HalfBit() returns (bit: bool)
      requires Valid()
      modifies this
      ensures Valid() && Path(input, old(State()), [Event(Fair, bit)], State())
    {
      ghost var d := State();
      NormalizeRange();
      range := range / 2;
      code := (code - range) % WORD;
      bit := code < 0x8000_0000;
      if !bit {
        code := (code + range) % WORD;
      }
      PathOne(input, d, Fair);
    }

    method Integer(base: nat, bits: nat) returns (v: nat)
      requires Valid() && base + Pow2(bits) <= TOTAL
      modifies this, probs
      ensures Valid() && v < Pow2(bits) && Path(input, old(State()), Tree(base, bits, v), State())
    {
      hide Path; hide Words; hide Tree; hide Pow2;
      var sym := 1;
      PathNone(input, State());
      TreeNone(base);
      for i := 0 to bits
        invariant Valid() && Pow2(i) <= sym < 2 * Pow2(i)
        invariant Path(input, old(State()), Tree(base, i, sym - Pow2(i)), State())
      {
        PowNext(i);
        Pow2Mono(i + 1, bits);
        ghost var mid := State();
        ghost var before := sym - Pow2(i);
        var bit := Bit(base + sym);
        sym := 2 * sym + if bit then 1 else 0;
        TreeNext(base, i, before, bit);
        PathJoin(input, old(State()), Tree(base, i, before), mid, Ask(base + Pow2(i) + before, bit), State());
      }
      v := sym - Pow2(bits);
    }

    method ReverseInteger(base: int, bits: nat) returns (v: nat)
      requires Valid() && base + 1 >= 0 && base + Pow2(bits) <= TOTAL
      modifies this, probs
      ensures Valid() && v < Pow2(bits) && Path(input, old(State()), Reverse(base, bits, v), State())
    {
      hide Path; hide Words; hide Rev;
      var sym := 1;
      v := 0;
      RevNone();
      PathNone(input, State());
      for i := 0 to bits
        invariant Valid() && v < Pow2(i) && sym == Pow2(i) + Rev(i, v)
        invariant Path(input, old(State()), Reverse(base, i, v), State())
      {
        hide Reverse;
        Pow2Mono(i + 1, bits);
        ghost var mid := State();
        var bit := Bit(base + sym);
        ghost var v0 := v;
        ReverseGrows(base, i, v, bit);
        sym := 2 * sym + if bit then 1 else 0;
        v := v + (if bit then 1 else 0) * Pow2(i);
        PathJoin(input, old(State()), Reverse(base, i, v0), mid, Ask(base + Pow2(i) + Rev(i, v0), bit), State());
      }
    }

    method Length(base: nat, pos: nat) returns (len: nat)
      requires Valid() && pos < POS_STATES && (base == MATCH_LEN || base == REP_LEN)
      modifies this, probs
      ensures Valid() && 2 <= len <= 273 && Path(input, old(State()), LenEvents(base, pos, len), State())
    {
      hide Path; hide Words; hide Tree; hide Ask;
      Pow2Values();
      hide Pow2;
      ghost var s0 := State();
      var long := Bit(base);
      ghost var s1 := State();
      if long {
        var longer := Bit(base + 1);
        ghost var s2 := State();
        PathJoin(input, s0, Ask(base, true), s1, Ask(base + 1, longer), s2);
        if longer {
          var v := Integer(base + 258, 8);
          len := 18 + v;
          PathJoin(input, s0, Ask(base, true) + Ask(base + 1, true), s2, Tree(base + 258, 8, v), State());
        } else {
          var v := Integer(base + 130 + pos * 8, 3);
          len := 10 + v;
          PathJoin(input, s0, Ask(base, true) + Ask(base + 1, false), s2, Tree(base + 130 + pos * 8, 3, v), State());
        }
      } else {
        var v := Integer(base + 2 + pos * 8, 3);
        len := 2 + v;
        PathJoin(input, s0, Ask(base, false), s1, Tree(base + 2 + pos * 8, 3, v), State());
      }
    }

    /** The bits of a distance below the two highest: all adaptive, or the last four. */
    method Footer(slot: nat) returns (dist: nat)
      requires Valid() && 4 <= slot < 64
      modifies this, probs
      ensures Valid() && SlotBase(slot) <= dist < SlotBase(slot) + Pow2(FooterBits(slot))
      ensures Path(input, old(State()), FooterEvents(slot, dist - SlotBase(slot)), State())
    {
      hide Path; hide Words; hide Reverse; hide Even; hide Pow2;
      var limit := slot / 2 - 1;
      if slot < 14 {
        SpecialIndex(slot);
        dist := (2 + slot % 2) * Pow2(limit);
        var r := ReverseInteger(DIST_SPECIAL + dist - slot - 1, limit);
        dist := dist + r;
      } else {
        ghost var s0 := State();
        ghost var v;
        dist, v := HalfBits(2 + slot % 2, limit - 4);
        ghost var s1 := State();
        FourBits();
        var r := ReverseInteger(DIST_ALIGN, 4);
        PathJoin(input, s0, Even(limit - 4, v), s1, Reverse(DIST_ALIGN, 4, r), State());
        JoinFooter(2 + slot % 2, limit - 4, v, r);
        dist := dist * 16 + r;
      }
    }

    method HalfBits(first: nat, n: nat) returns (dist: nat, ghost v: nat)
      requires Valid()
      modifies this
      ensures Valid() && v < Pow2(n) && dist == first * Pow2(n) + v
      ensures Path(input, old(State()), Even(n, v), State())
    {
      hide Path; hide Words; hide Even; hide Pow2;
      dist, v := first, 0;
      PathNone(input, State());
      EvenNone();
      for i := 0 to n
        invariant Valid() && v < Pow2(i) && dist == first * Pow2(i) + v
        invariant Path(input, old(State()), Even(i, v), State())
      {
        ghost var mid, v0 := State(), v;
        var bit := HalfBit();
        dist := 2 * dist + if bit then 1 else 0;
        v := 2 * v + if bit then 1 else 0;
        EvenNext(i, v0, bit);
        MulAssoc(first, Pow2(i), 2);
        PathJoin(input, old(State()), Even(i, v0), mid, [Event(Fair, bit)], State());
      }
    }

    method Distance(len: nat) returns (dist: nat)
      requires Valid() && len >= 2
      modifies this, probs
      ensures Valid() && dist < WORD && Path(input, old(State()), DistEvents(len, dist), State())
    {
      hide Path; hide Words; hide Tree; hide FooterEvents;
      Pow2Values();
      ghost var s0 := State();
      var distState: nat := if len < 6 then len - 2 else 3;
      var base := DIST_SLOT + distState * 64;
      var slot := Integer(base, 6);
      ghost var s1 := State();
      if slot < 4 {
        dist := slot;
        assert Tree(base, 6, slot) + [] == Tree(base, 6, slot);
      } else {
        dist := Footer(slot);
        ghost var r := dist - SlotBase(slot);
        SlotOf(slot, r);
        assert dist < WORD by { Pow2Mono(FooterBits(slot) + 2, 32); WordIsPow2(); }
        hide Slot; hide SlotBase; hide Pow2;
        PathJoin(input, s0, Tree(base, 6, slot), s1, FooterEvents(slot, r), State());
      }
    }

    /** A literal after a match: bit is 0x100 for as long as the bits agree with the match
        byte, and 0 from the first difference on. */
    method MatchedLiteral(base: nat, matchByte: nat) returns (v: nat)
      requires Valid() && matchByte < 256 && base + CODER_SIZE <= TOTAL
      modifies this, probs
      ensures Valid() && v < 256 && Path(input, old(State()), Matched(base, 8, matchByte, v), State())
    {
      hide Path; hide Words; hide Comparing; hide Matched; hide Pow2; hide Masked;
      var sym: nat, match_: nat, bit: nat := 1, 2 * matchByte, 0x100;
      ghost var i: nat := 0;
      ComparingFirst(matchByte);
      MatchedFirst(base, matchByte);
      PathNone(input, State());
      while sym < 0x100
        invariant i <= 8 && Pow2(i) <= sym && Comparing(matchByte, i, sym, match_, bit) && Valid()
        invariant Path(input, old(State()), Matched(base, i, Top(matchByte, i), sym - Pow2(i)), State())
        decreases 8 - i
      {
        ComparingMore(matchByte, i, sym, match_, bit);
        ghost var i0, before, mid := i, sym - Pow2(i), State();
        var matchBit := Masked(match_, bit);
        var idx := bit + matchBit + sym;
        var b := Bit(base + idx);
        ComparingNext(base, matchByte, i, sym, match_, bit, b);
        match_ := 2 * match_;
        sym := 2 * sym;
        if b {
          sym := sym + 1;
          bit := if bit == matchBit then bit else 0;
        } else {
          bit := if matchBit == 0 then bit else 0;
        }
        i := i + 1;
        PathJoin(input, old(State()), Matched(base, i0, Top(matchByte, i0), before), mid, Ask(base + idx, b), State());
      }
      ComparingDone(matchByte, i, sym, match_, bit);
      v := sym - 0x100;
    }
  }

  lemma PowNext(i: nat)
    ensures Pow2(i + 1) == 2 * Pow2(i)
  {
  }

  lemma FourBits()
    ensures Pow2(4) == 16
  {
    Pow2Values();
  }

  lemma EvenNone()
    ensures Pow2(0) == 1 && Even(0, 0) == []
  {
  }

  lemma EvenNext(i: nat, before: nat, bit: bool)
    ensures Pow2(i + 1) == 2 * Pow2(i)
    ensures Even(i + 1, 2 * before + if bit then 1 else 0) == Even(i, before) + [Event(Fair, bit)]
  {
    var v := 2 * before + if bit then 1 else 0;
    assert v / 2 == before && (v % 2 == 1 <==> bit);
  }

  lemma TreeNone(base: nat)
    ensures Pow2(0) == 1 && Tree(base, 0, 0) == []
  {
  }

  lemma TreeNext(base: nat, i: nat, before: nat, bit: bool)
    requires before < Pow2(i)
    ensures Pow2(i + 1) == 2 * Pow2(i)
    ensures var v := 2 * before + if bit then 1 else 0;
            Tree(base, i + 1, v) == Tree(base, i, before) + Ask(base + Pow2(i) + before, bit)
  {
    var v := 2 * before + if bit then 1 else 0;
    assert v / 2 == before && (v % 2 == 1 <==> bit);
  }

  /** The first n bits of a byte. */
  ghost function Top(b: nat, n: nat): (r: nat)
    requires n <= 8
  {
    Shr(b, 8 - n)
  }

  /** i bits are read; bit is 0x100 as long as they are those of the match byte. */
  ghost predicate Comparing(matchByte: nat, i: nat, sym: nat, match_: nat, bit: nat) {
    && i <= 8 && Pow2(i) <= sym < 2 * Pow2(i) && match_ == matchByte * Pow2(i + 1)
    && bit == if Top(matchByte, i) == sym - Pow2(i) then 0x100 else 0
  }

  lemma ComparingFirst(matchByte: nat)
    requires matchByte < 256
    ensures Comparing(matchByte, 0, 1, 2 * matchByte, 0x100) && Pow2(0) == 1
  {
    Pow2Values();
  }

  lemma MatchedFirst(base: nat, matchByte: nat)
    ensures Matched(base, 0, Top(matchByte, 0), 0) == []
  {
  }

  lemma ComparingMore(matchByte: nat, i: nat, sym: nat, match_: nat, bit: nat)
    requires Comparing(matchByte, i, sym, match_, bit) && sym < 0x100
    ensures i < 8 && bit + Masked(match_, bit) + sym < CODER_SIZE
  {
    Pow2Values();
  }

  lemma ComparingDone(matchByte: nat, i: nat, sym: nat, match_: nat, bit: nat)
    requires Comparing(matchByte, i, sym, match_, bit) && sym >= 0x100
    ensures i == 8 && Pow2(8) == 256 && Top(matchByte, 8) == matchByte && sym < 512
  {
    Pow2Values();
    if i < 8 {
      Pow2Mono(i, 7);
    }
  }

  lemma ComparingNext(base: nat, matchByte: nat, i: nat, sym: nat, match_: nat, bit: nat, b: bool)
    requires Comparing(matchByte, i, sym, match_, bit) && i < 8
    ensures var matchBit := Masked(match_, bit);
            var sym' := 2 * sym + if b then 1 else 0;
            var bit' := if b then (if bit == matchBit then bit else 0) else (if matchBit == 0 then bit else 0);
            && sym' >= Pow2(i + 1) && Comparing(matchByte, i + 1, sym', 2 * match_, bit')
            && Matched(base, i + 1, Top(matchByte, i + 1), sym' - Pow2(i + 1))
               == Matched(base, i, Top(matchByte, i), sym - Pow2(i)) + Ask(base + bit + matchBit + sym, b)
  {
    hide Pow2; hide Matched; hide Top; hide Ask;
    MatchedStep(matchByte, i);
    PowNext(i);
    PowNext(i + 1);
    MulAssoc(matchByte, Pow2(i + 1), 2);
    MatchedSnoc(base, Top(matchByte, i + 1), i, sym - Pow2(i), b);
  }

  /** One more decision, by the bit of the match byte while all bits before it agreed. */
  lemma MatchedSnoc(base: nat, m: nat, i: nat, before: nat, b: bool)
    ensures var v := 2 * before + if b then 1 else 0;
            Matched(base, i + 1, m, v)
            == Matched(base, i, m / 2, before)
               + Ask(base + Pow2(i) + before + (if m / 2 == before then 256 * (1 + m % 2) else 0), b)
  {
    hide Pow2; hide Matched; hide Ask;
    var v := 2 * before + if b then 1 else 0;
    TwiceAndBit(before, b);
    MatchedUnfold(base, i, m, v);
  }

  lemma TwiceAndBit(x: nat, b: bool)
    ensures var v := 2 * x + if b then 1 else 0; v / 2 == x && (v % 2 == 1 <==> b)
  {
  }

  lemma MatchedUnfold(base: nat, i: nat, m: nat, v: nat)
    ensures Matched(base, i + 1, m, v)
         == Matched(base, i, m / 2, v / 2)
            + Ask(base + Pow2(i) + v / 2 + (if m / 2 == v / 2 then 256 * (1 + m % 2) else 0), v % 2 == 1)
  {
    hide Pow2; hide Ask;
  }

  /** match & bit, for a bit that is 0x100 or nothing. */
  function Masked(m: nat, bit: nat): nat {
    if bit == 0x100 then m / 0x100 % 2 * 0x100 else 0
  }

  lemma ScaledQuotient(m: nat, p: nat, q: nat)
    requires p > 0 && q > 0
    ensures q * p > 0 && m * p / (q * p) == m / q
  {
    var h, r := m / q, m % q;
    MulMono(1, q, p);
    assert m * p == h * (q * p) + r * p by {
      assert m == h * q + r;
      MulDist(h * q, r, p);
      MulAssoc(h, q, p);
    }
    MulMono(r + 1, q, p);
    MulDist(r, 1, p);
    MulMono(0, r, p);
    DivModUnique(m * p, q * p, h, r * p);
  }

  /** Bit 8 of the shifted match byte is its next bit. */
  lemma MatchedStep(m: nat, i: nat)
    requires i < 8
    ensures m * Pow2(i + 1) / 0x100 == Top(m, i + 1)
    ensures Top(m, i + 1) / 2 == Top(m, i)
  {
    Pow2Values();
    var p, q := Pow2(i + 1), Pow2(7 - i);
    Pow2Add(i + 1, 7 - i);
    assert Pow2(8 - i) == 2 * q;
    hide Pow2;
    ScaledQuotient(m, p, q);
    DivDiv(m, q, 2);
  }

  lemma RevNone()
    ensures Rev(0, 0) == 0
  {
  }

  lemma FourBytes(input: seq<nat>, start: nat)
    requires AllBytes(input) && start + 4 <= |input|
    ensures input[start] * 0x100_0000 + input[start + 1] * 0x1_0000 + input[start + 2] * 0x100 + input[start + 3]
            == Value(input[start..start + 4]) < WORD
  {
    ValueNext(input, start, start + 3);
    ValueNext(input, start, start + 2);
    ValueNext(input, start, start + 1);
    ValueNext(input, start, start);
    assert input[start..start] == [];
  }

  /** A further bit above the low n. */
  lemma ReverseGrows(base: int, n: nat, v: nat, bit: bool)
    requires base + 1 >= 0 && v < Pow2(n)
    ensures var v' := v + (if bit then 1 else 0) * Pow2(n);
            && v' < Pow2(n + 1)
            && Reverse(base, n + 1, v') == Reverse(base, n, v) + Ask(base + Pow2(n) + Rev(n, v), bit)
            && Rev(n + 1, v') == 2 * Rev(n, v) + if bit then 1 else 0
  {
    var b := if bit then 1 else 0;
    var v' := v + b * Pow2(n);
    DivModUnique(v', Pow2(n), b, v);
    ModFacts(v, Pow2(n));
    ReverseLow(base, n, v', v);
    RevLow(n, v');
    RevCons(n, b, v);
  }

  lemma JoinFooter(first: nat, n: nat, v: nat, r: nat)
    requires v < Pow2(n) && r < 16
    ensures (first * Pow2(n) + v) * 16 + r == first * Pow2(n + 4) + (v * 16 + r)
    ensures v * 16 + r < Pow2(n + 4) && (v * 16 + r) / 16 == v && (v * 16 + r) % 16 == r
  {
    Pow2Values();
    Pow2Add(n, 4);
    MulAssoc(first, Pow2(n), 16);
  }
}
