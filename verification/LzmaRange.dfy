/**
 The range coder under LZMA.  The reference is arithmetic coding in exact integers: a
 sequence of binary decisions narrows an interval, and a byte string stands for the
 decisions whose interval it lies in.  The decoder keeps 32-bit numbers, a code relative to
 the bottom of the interval, and reads one byte whenever the range gets short.
 */
module LzmaRange {
  import opened Bits

  const TOP: nat := 0x100_0000
  const WORD: nat := 0x1_0000_0000
  const ONE: nat := 2048
  const LEAST: nat := 31
  const MOST: nat := 2017

  /** What a decision is read with: an adaptive probability, or even odds. */
  datatype Choice = Context(index: nat) | Fair

  datatype Event = Event(choice: Choice, bit: bool)

  ghost predicate Probabilities(probs: seq<nat>) {
    forall i :: 0 <= i < |probs| ==> LEAST <= probs[i] <= MOST
  }

  predicate Known(c: Choice, probs: seq<nat>) {
    c.Context? ==> c.index < |probs|
  }

  ghost predicate AllKnown(es: seq<Event>, probs: seq<nat>) {
    forall i :: 0 <= i < |es| ==> Known(es[i].choice, probs)
  }

  // ----- the reference: nested intervals

  /** low .. low + range among the numbers of bytes + 4 bytes. */
  datatype Interval = Interval(low: nat, range: nat, bytes: nat, probs: seq<nat>)

  function Adapt(p: nat, bit: bool): (r: nat)
    requires LEAST <= p <= MOST
    ensures LEAST <= r <= MOST
  {
    if bit then p - p / 32 else p + (ONE - p) / 32
  }

  /** A probability moves at every decision, until it has come to its limit. */
  lemma AdaptMoves(p: nat)
    requires LEAST <= p <= MOST
    ensures Adapt(p, true) == p <==> p == LEAST
    ensures Adapt(p, false) == p <==> p == MOST
    ensures p > LEAST ==> Adapt(p, true) < p
    ensures p < MOST ==> Adapt(p, false) > p
  {
  }

  function Learn(probs: seq<nat>, e: Event): (r: seq<nat>)
    requires Probabilities(probs) && Known(e.choice, probs)
    ensures Probabilities(r) && |r| == |probs|
  {
    match e.choice
    case Context(i) => probs[i := Adapt(probs[i], e.bit)]
    case Fair => probs
  }

  function Bound(range: nat, p: nat): nat {
    range / ONE * p
  }

  /** The part of a range that stands for 0. */
  function Lower(range: nat, probs: seq<nat>, c: Choice): nat
    requires Known(c, probs)
  {
    match c
    case Context(i) => Bound(range, probs[i])
    case Fair => range / 2
  }

  /** The part of a range that stands for 1; even odds waste the last unit of an odd range. */
  function Upper(range: nat, probs: seq<nat>, c: Choice): int
    requires Known(c, probs)
  {
    match c
    case Context(_) => range - Lower(range, probs, c)
    case Fair => range / 2
  }

  function Scaled(iv: Interval): Interval {
    if iv.range < TOP then Interval(iv.low * 256, iv.range * 256, iv.bytes + 1, iv.probs) else iv
  }

  ghost function Pow256(n: nat): (r: nat)
    ensures r > 0
  {
    if n == 0 then 1 else 256 * Pow256(n - 1)
  }

  ghost predicate Good(iv: Interval) {
    && 0x1_0000 <= iv.range < WORD
    && Probabilities(iv.probs)
    && iv.low + iv.range <= (WORD - 1) * Pow256(iv.bytes)
  }

  /** Both parts stay wide enough for one more byte to make up for the split. */
  lemma SplitBounds(range: nat, probs: seq<nat>, c: Choice)
    requires TOP <= range < WORD && Probabilities(probs) && Known(c, probs)
    ensures 0x1_0000 <= Lower(range, probs, c) < range
    ensures 0x1_0000 <= Upper(range, probs, c) < range
    ensures Lower(range, probs, c) + Upper(range, probs, c) <= range
  {
    if c.Context? {
      var q, p := range / ONE, probs[c.index];
      MulMono(8192, q, LEAST);
      MulMono(LEAST, p, q);
      MulMono(p, MOST, q);
      assert q * p == p * q;
    }
  }

  lemma ScaledGood(iv: Interval)
    requires Good(iv)
    ensures Good(Scaled(iv)) && Scaled(iv).range >= TOP
  {
    MulAssoc(WORD - 1, 256, Pow256(iv.bytes));
  }

  function Narrow(iv: Interval, e: Event): Interval
    requires Good(iv) && Known(e.choice, iv.probs)
  {
    ScaledGood(iv);
    var s := Scaled(iv);
    var m := Lower(s.range, s.probs, e.choice);
    SplitBounds(s.range, s.probs, e.choice);
    Interval(if e.bit then s.low + m else s.low, if e.bit then Upper(s.range, s.probs, e.choice) else m,
             s.bytes, Learn(s.probs, e))
  }

  lemma NarrowGood(iv: Interval, e: Event)
    requires Good(iv) && Known(e.choice, iv.probs)
    ensures Good(Narrow(iv, e)) && |Narrow(iv, e).probs| == |iv.probs|
  {
    hide Lower; hide Upper; hide Pow256;
    ScaledGood(iv);
    var s := Scaled(iv);
    SplitBounds(s.range, s.probs, e.choice);
  }

  /** The interval of a sequence of decisions. */
  ghost function Encode(iv: Interval, es: seq<Event>): (r: Interval)
    requires Good(iv) && AllKnown(es, iv.probs)
    ensures Good(r) && |r.probs| == |iv.probs|
    decreases |es|
  {
    if es == [] then iv
    else
      NarrowGood(iv, es[0]);
      assert es[0] in es;
      Encode(Narrow(iv, es[0]), es[1..])
  }

  /** Big-endian value of a byte string. */
  ghost function Value(b: seq<nat>): nat {
    if b == [] then 0 else 256 * Value(b[..|b| - 1]) + b[|b| - 1]
  }

  /** The input from start lies in the interval. */
  ghost predicate Inside(input: seq<nat>, start: nat, iv: Interval)
    requires start + 4 + iv.bytes <= |input|
  {
    iv.low <= Value(input[start..start + 4 + iv.bytes]) < iv.low + iv.range
  }

  // ----- the decoder

  datatype Decoder = Decoder(off: nat, range: nat, code: nat, probs: seq<nat>)

  ghost predicate Words(d: Decoder) {
    d.range < WORD && d.code < WORD && Probabilities(d.probs)
  }

  /** Read a byte when the range is short; at the end of the input nothing happens. */
  function Normalize(input: seq<nat>, d: Decoder): Decoder {
    if d.range < TOP && d.off < |input|
    then Decoder(d.off + 1, d.range * 256 % WORD, (d.code * 256 % WORD + input[d.off]) % WORD, d.probs)
    else d
  }

  /** Compare the code with the size of the lower part. */
  function Decide(n: Decoder, c: Choice): (r: (bool, Decoder))
    requires Words(n) && Known(c, n.probs)
    ensures Words(r.1) && |r.1.probs| == |n.probs|
  {
    match c
    case Context(i) =>
      var bound := Bound(n.range, n.probs[i]) % WORD;
      var bit := n.code >= bound;
      (bit, Decoder(n.off, if bit then (n.range - bound) % WORD else bound, if bit then n.code - bound else n.code,
                    Learn(n.probs, Event(c, bit))))
    case Fair =>
      var h := n.range / 2;
      var down := (n.code - h) % WORD;
      var bit := down < 0x8000_0000;
      (bit, Decoder(n.off, h, if bit then down else (down + h) % WORD, n.probs))
  }

  function ReadBit(input: seq<nat>, d: Decoder, c: Choice): (r: (bool, Decoder))
    requires Words(d) && Known(c, d.probs)
    ensures Words(r.1) && |r.1.probs| == |d.probs|
  {
    Decide(Normalize(input, d), c)
  }

  /** The decoder reads these decisions from d on. */
  ghost predicate Reads(input: seq<nat>, d: Decoder, es: seq<Event>)
    requires Words(d) && AllKnown(es, d.probs)
    decreases |es|
  {
    es == [] ||
    (assert es[0] in es;
     var (bit, d') := ReadBit(input, d, es[0].choice);
     bit == es[0].bit && Reads(input, d', es[1..]))
  }

  /** The state after as many decisions, read with the same choices. */
  ghost function After(input: seq<nat>, d: Decoder, es: seq<Event>): (r: Decoder)
    requires Words(d) && AllKnown(es, d.probs)
    ensures Words(r) && |r.probs| == |d.probs|
    decreases |es|
  {
    if es == [] then d
    else
      assert es[0] in es;
      After(input, ReadBit(input, d, es[0].choice).1, es[1..])
  }

  /** It reads them, and the code stays below the range all the way. */
  ghost predicate ReadsInRange(input: seq<nat>, d: Decoder, es: seq<Event>)
    requires Words(d) && AllKnown(es, d.probs)
    decreases |es|
  {
    d.code < d.range &&
    (es == [] ||
     (assert es[0] in es;
      var (bit, d') := ReadBit(input, d, es[0].choice);
      bit == es[0].bit && ReadsInRange(input, d', es[1..])))
  }

  // ----- the decoder against the reference

  /** d is at the interval, and its code is the distance from the bottom of the interval. */
  ghost predicate Denotes(input: seq<nat>, start: nat, iv: Interval, d: Decoder) {
    && d.range == iv.range && d.probs == iv.probs && d.off == start + 4 + iv.bytes <= |input|
    && d.code + iv.low == Value(input[start..d.off])
  }

  lemma ValueNext(input: seq<nat>, start: nat, off: nat)
    requires start <= off < |input|
    ensures Value(input[start..off + 1]) == 256 * Value(input[start..off]) + input[off]
  {
    var b := input[start..off + 1];
    assert b[..|b| - 1] == input[start..off];
  }

  lemma ShiftIn(range: nat, code: nat, b: nat)
    requires code < range < TOP && b < 256
    ensures range * 256 % WORD == range * 256 && (code * 256 % WORD + b) % WORD == code * 256 + b < range * 256
  {
    Small(range * 256);
    Small(code * 256);
    Small(code * 256 + b);
  }

  /** Normalizing is exact: no bit of the code is lost, and one byte is enough. */
  lemma NormalizeDenotes(input: seq<nat>, start: nat, iv: Interval, d: Decoder)
    requires AllBytes(input) && Good(iv) && Denotes(input, start, iv, d) && d.code < d.range
    requires start + 4 + Scaled(iv).bytes <= |input|
    ensures Denotes(input, start, Scaled(iv), Normalize(input, d))
    ensures Normalize(input, d).code < Normalize(input, d).range && Normalize(input, d).range >= TOP
  {
    hide Value; hide Pow256; hide Probabilities; hide WORD;
    if iv.range < TOP {
      ValueNext(input, start, d.off);
      ShiftIn(d.range, d.code, input[d.off]);
    }
  }

  /** On 32-bit words the decision is the exact one: nothing wraps around. */
  lemma DecideExact(n: Decoder, c: Choice)
    requires Words(n) && Known(c, n.probs) && n.code < n.range && n.range >= TOP
    ensures var (bit, d') := Decide(n, c);
            var m := Lower(n.range, n.probs, c);
            && m < WORD
            && (bit <==> n.code >= m)
            && d'.off == n.off && d'.probs == Learn(n.probs, Event(c, bit))
            && d'.range == (if bit then Upper(n.range, n.probs, c) else m)
            && d'.code == (if bit then n.code - m else n.code)
  {
    hide Probabilities; hide Adapt; hide WORD; hide Bound;
    SplitBounds(n.range, n.probs, c);
    match c
    case Context(i) =>
      Small(Lower(n.range, n.probs, c));
      Small(n.range - Lower(n.range, n.probs, c));
    case Fair =>
      Halves(n.range, n.code);
  }

  lemma Small(x: nat)
    requires x < WORD
    ensures x % WORD == x
  {
  }

  /** The sign bit of the difference tells the halves of a range apart. */
  lemma Halves(range: nat, code: nat)
    requires code < range < WORD
    ensures var h, down := range / 2, (code - range / 2) % WORD;
            && (down < 0x8000_0000 <==> code >= h)
            && (code >= h ==> down == code - h)
            && (code < h ==> (down + h) % WORD == code)
  {
    var h := range / 2;
    if code < h {
      assert (code - h) % WORD == code - h + WORD;
    }
  }

  /** One decision is exact: the new code is again the distance from the new bottom.  It is
      again below the range, except for the last unit of an odd range at even odds. */
  lemma BitDenotes(input: seq<nat>, start: nat, iv: Interval, d: Decoder, c: Choice)
    requires AllBytes(input) && Good(iv) && Denotes(input, start, iv, d) && d.code < d.range && Words(d)
        && Known(c, d.probs)
    requires start + 4 + Scaled(iv).bytes <= |input|
    ensures var (bit, d') := ReadBit(input, d, c);
            var n := Normalize(input, d);
            && Denotes(input, start, Narrow(iv, Event(c, bit)), d')
            && (d'.code < d'.range <==> !(c.Fair? && n.range % 2 == 1 && n.code == n.range - 1))
  {
    hide Value; hide Pow256; hide Probabilities; hide Decide; hide Learn;
    NormalizeDenotes(input, start, iv, d);
    var n := Normalize(input, d);
    ScaledGood(iv);
    hide Normalize; hide Scaled;
    DecideExact(n, c);
    LowerUpper(n, c);
    hide Lower; hide Upper;
  }

  lemma LowerUpper(n: Decoder, c: Choice)
    requires Known(c, n.probs)
    ensures Lower(n.range, n.probs, c) + Upper(n.range, n.probs, c)
         == if c.Fair? && n.range % 2 == 1 then n.range - 1 else n.range
  {
  }

  /** The decision that is not read is one whose interval the input lies outside of. */
  lemma OtherBitOutside(input: seq<nat>, start: nat, iv: Interval, d: Decoder, e: Event)
    requires AllBytes(input) && Good(iv) && Denotes(input, start, iv, d) && d.code < d.range && Words(d)
    requires Known(e.choice, d.probs) && start + 4 + Scaled(iv).bytes <= |input|
    ensures Inside(input, start, Narrow(iv, e)) <==>
            ReadBit(input, d, e.choice).0 == e.bit
                && ReadBit(input, d, e.choice).1.code < ReadBit(input, d, e.choice).1.range
  {
    hide Value; hide Pow256; hide Probabilities;
    NormalizeDenotes(input, start, iv, d);
    var n := Normalize(input, d);
    ScaledGood(iv);
    hide Decide; hide Learn; hide Normalize; hide Scaled;
    SplitBounds(n.range, n.probs, e.choice);
    DecideExact(n, e.choice);
    BitDenotes(input, start, iv, d, e.choice);
  }

  lemma {:induction false} BytesGrow(iv: Interval, es: seq<Event>)
    requires Good(iv) && AllKnown(es, iv.probs)
    ensures Encode(iv, es).bytes >= iv.bytes
    ensures es != [] ==> Encode(iv, es).bytes >= Scaled(iv).bytes
    decreases |es|
  {
    if es != [] {
      NarrowGood(iv, es[0]);
      assert es[0] in es;
      BytesGrow(Narrow(iv, es[0]), es[1..]);
    }
  }

  /** An interval of later decisions lies inside that of the earlier ones. */
  lemma {:induction false} Nested(input: seq<nat>, start: nat, iv: Interval, es: seq<Event>)
    requires AllBytes(input) && Good(iv) && AllKnown(es, iv.probs) && start + 4 + Encode(iv, es).bytes <= |input|
    ensures iv.bytes <= Encode(iv, es).bytes
    ensures Inside(input, start, Encode(iv, es)) ==> Inside(input, start, iv)
    decreases |es|
  {
    BytesGrow(iv, es);
    if es != [] {
      assert es[0] in es;
      NarrowGood(iv, es[0]);
      Nested(input, start, Narrow(iv, es[0]), es[1..]);
      NestedStep(input, start, iv, es[0]);
    }
  }

  lemma NestedStep(input: seq<nat>, start: nat, iv: Interval, e: Event)
    requires AllBytes(input) && Good(iv) && Known(e.choice, iv.probs) && start + 4 + Scaled(iv).bytes <= |input|
    ensures Inside(input, start, Narrow(iv, e)) ==> Inside(input, start, iv)
  {
    ScaledGood(iv);
    var s := Scaled(iv);
    SplitBounds(s.range, s.probs, e.choice);
    hide Lower; hide Upper; hide Pow256;
    if iv.range < TOP {
      ValueNext(input, start, start + 4 + iv.bytes);
    }
  }

  /** The main theorem: a decoder at an interval reads exactly the decisions whose interval
      the input lies in. */
  lemma {:induction false} ReadsExactly(input: seq<nat>, start: nat, iv: Interval, d: Decoder, es: seq<Event>)
    requires AllBytes(input) && Good(iv) && Denotes(input, start, iv, d) && d.code < d.range && Words(d)
    requires AllKnown(es, d.probs) && start + 4 + Encode(iv, es).bytes <= |input|
    ensures ReadsInRange(input, d, es) <==> Inside(input, start, Encode(iv, es))
    ensures ReadsInRange(input, d, es) ==> Denotes(input, start, Encode(iv, es), After(input, d, es))
    decreases |es|
  {
    if es != [] {
      var e := es[0];
      assert e in es;
      BytesGrow(iv, es);
      NarrowGood(iv, e);
      var iv' := Narrow(iv, e);
      var (bit, d') := ReadBit(input, d, e.choice);
      BytesGrow(iv', es[1..]);
      OtherBitOutside(input, start, iv, d, e);
      BitDenotes(input, start, iv, d, e.choice);
      if bit == e.bit && d'.code < d'.range {
        ReadsExactly(input, start, iv', d', es[1..]);
      } else {
        Nested(input, start, iv', es[1..]);
      }
    }
  }

  // ----- whole runs

  ghost predicate ChoicesKnown(cs: seq<Choice>, probs: seq<nat>) {
    forall i :: 0 <= i < |cs| && cs[i].Context? ==> cs[i].index < |probs|
  }

  /** What is read with these choices. */
  ghost function Decoded(input: seq<nat>, d: Decoder, cs: seq<Choice>): (es: seq<Event>)
    requires Words(d) && ChoicesKnown(cs, d.probs)
    ensures |es| == |cs| && forall i :: 0 <= i < |es| ==> es[i].choice == cs[i]
    decreases |cs|
  {
    if cs == [] then []
    else
      var (bit, d') := ReadBit(input, d, cs[0]);
      [Event(cs[0], bit)] + Decoded(input, d', cs[1..])
  }

  /** The code is the last unit of an odd range that is about to be halved. */
  ghost predicate LastUnit(input: seq<nat>, d: Decoder, c: Choice) {
    var n := Normalize(input, d);
    c.Fair? && n.range % 2 == 1 && n.code == n.range - 1
  }

  ghost predicate AvoidsLastUnit(input: seq<nat>, d: Decoder, cs: seq<Choice>)
    requires Words(d) && ChoicesKnown(cs, d.probs)
    decreases |cs|
  {
    cs == [] || (!LastUnit(input, d, cs[0]) && AvoidsLastUnit(input, ReadBit(input, d, cs[0]).1, cs[1..]))
  }

  /** The code stays below the range in a run exactly when no halving meets the last unit of
      an odd range; so always when every choice is an adaptive one.  While it does, the
      state is that of the interval, with all its bounds. */
  lemma {:induction false} StaysInRange(input: seq<nat>, start: nat, iv: Interval, d: Decoder, cs: seq<Choice>)
    requires AllBytes(input) && Good(iv) && Denotes(input, start, iv, d) && d.code < d.range && Words(d)
    requires ChoicesKnown(cs, d.probs)
    requires start + 4 + Encode(iv, Decoded(input, d, cs)).bytes <= |input|
    ensures ReadsInRange(input, d, Decoded(input, d, cs)) <==> AvoidsLastUnit(input, d, cs)
    ensures AvoidsLastUnit(input, d, cs) ==>
              var d' := After(input, d, Decoded(input, d, cs));
              d'.code < d'.range && 0x1_0000 <= d'.range && Probabilities(d'.probs)
    ensures (forall i :: 0 <= i < |cs| ==> cs[i].Context?) ==> AvoidsLastUnit(input, d, cs)
    decreases |cs|
  {
    if cs != [] {
      var es := Decoded(input, d, cs);
      var (bit, d') := ReadBit(input, d, cs[0]);
      var e := es[0];
      BytesGrow(iv, es);
      NarrowGood(iv, e);
      BitDenotes(input, start, iv, d, cs[0]);
      assert es[1..] == Decoded(input, d', cs[1..]);
      if d'.code < d'.range {
        StaysInRange(input, start, Narrow(iv, e), d', cs[1..]);
      }
    }
  }

  // ----- encoding

  ghost function ToBytes(x: nat, n: nat): (b: seq<nat>)
    ensures |b| == n && AllBytes(b)
  {
    if n == 0 then [] else ToBytes(x / 256, n - 1) + [x % 256]
  }

  lemma {:induction false} ToBytesValue(x: nat, n: nat)
    requires x < Pow256(n)
    ensures Value(ToBytes(x, n)) == x
  {
    if n > 0 {
      ToBytesValue(x / 256, n - 1);
      var b := ToBytes(x, n);
      assert b[..|b| - 1] == ToBytes(x / 256, n - 1);
    }
  }

  lemma {:induction false} Pow256Add(m: nat, n: nat)
    ensures Pow256(m + n) == Pow256(m) * Pow256(n)
  {
    if m > 0 {
      Pow256Add(m - 1, n);
      MulAssoc(256, Pow256(m - 1), Pow256(n));
    }
  }

  /** The state in which a chunk starts: four bytes of code after one that is ignored. */
  ghost function Start(input: seq<nat>, start: nat, probs: seq<nat>): Decoder
    requires start + 4 <= |input|
  {
    Decoder(start + 4, WORD - 1, Value(input[start..start + 4]), probs)
  }

  function Whole(probs: seq<nat>): Interval {
    Interval(0, WORD - 1, 0, probs)
  }

  /** Range encoding: any number of the interval will do, so take its bottom. */
  ghost function RangeEncode(probs: seq<nat>, es: seq<Event>): (b: seq<nat>)
    requires Probabilities(probs) && AllKnown(es, probs)
    ensures AllBytes(b)
  {
    WholeGood(probs);
    var iv := Encode(Whole(probs), es);
    ToBytes(iv.low, 4 + iv.bytes)
  }

  lemma WholeGood(probs: seq<nat>)
    requires Probabilities(probs)
    ensures Good(Whole(probs))
  {
    assert Pow256(0) == 1;
  }

  lemma Pow256Four()
    ensures Pow256(4) == WORD
  {
    assert Pow256(2) == 65536 by { assert Pow256(1) == 256; }
    assert Pow256(3) == 256 * Pow256(2);
  }

  lemma {:induction false} ValueBelow(b: seq<nat>)
    requires AllBytes(b)
    ensures Value(b) < Pow256(|b|)
  {
    if b != [] {
      ValueBelow(b[..|b| - 1]);
    }
  }

  /** Any number below the top of an interval can be written with its bytes. */
  lemma FitsBytes(iv: Interval, x: nat)
    requires Good(iv) && x < iv.low + iv.range
    ensures Value(ToBytes(x, 4 + iv.bytes)) == x
  {
    Pow256Four();
    Pow256Add(4, iv.bytes);
    MulMono(WORD - 1, WORD, Pow256(iv.bytes));
    ToBytesValue(x, 4 + iv.bytes);
  }

  /** The encoding lies in the interval, whatever bytes come before and after it. */
  lemma InsideBottom(before: seq<nat>, probs: seq<nat>, es: seq<Event>, after: seq<nat>)
    requires Probabilities(probs) && AllKnown(es, probs) && AllBytes(before) && AllBytes(after) && Good(Whole(probs))
    ensures var b, iv := RangeEncode(probs, es), Encode(Whole(probs), es);
            var input := before + b + after;
            AllBytes(input) && |b| == 4 + iv.bytes && Inside(input, |before|, iv)
  {
    hide Value; hide Encode;
    var iv := Encode(Whole(probs), es);
    var b := RangeEncode(probs, es);
    var input := before + b + after;
    assert input[|before|..|before| + |b|] == b;
    FitsBytes(iv, iv.low);
  }

  /** Every sequence of decisions can be encoded, and decoding gives it back whatever bytes
      come before and after it. */
  lemma RangeRoundTrip(before: seq<nat>, probs: seq<nat>, es: seq<Event>, after: seq<nat>)
    requires Probabilities(probs) && AllKnown(es, probs) && AllBytes(before) && AllBytes(after)
    ensures var b := RangeEncode(probs, es);
            var input := before + b + after;
            && |b| >= 4 && Words(Start(input, |before|, probs))
            && ReadsInRange(input, Start(input, |before|, probs), es)
            && After(input, Start(input, |before|, probs), es).off == |before| + |b|
  {
    WholeGood(probs);
    var iv := Encode(Whole(probs), es);
    var b := RangeEncode(probs, es);
    var input := before + b + after;
    var start := |before|;
    InsideBottom(before, probs, es, after);
    Nested(input, start, Whole(probs), es);
    var d := Start(input, start, probs);
    assert d.code < d.range;
    ReadsExactly(input, start, Whole(probs), d, es);
  }

  // ----- where the code can get as large as the range

  /** From the reset on, some input brings a halving to the last unit of an odd range behind these
      decisions, if and only if their interval has an odd range then. */
  lemma LastUnitExactly(probs: seq<nat>, es: seq<Event>)
    requires Probabilities(probs) && AllKnown(es, probs) && Good(Whole(probs))
    ensures Scaled(Encode(Whole(probs), es)).range % 2 == 1 <==> exists input :: MeetsLastUnit(input, probs, es)
  {
    if Scaled(Encode(Whole(probs), es)).range % 2 == 1 {
      var input := LastUnitReached(probs, es);
    }
    if input :| MeetsLastUnit(input, probs, es) {
      hide Value; hide Encode; hide ReadsInRange; hide After; hide Inside;
      var iv := Encode(Whole(probs), es);
      StartsInside(input, probs);
      ReadsExactly(input, 0, Whole(probs), Start(input, 0, probs), es);
      NormalizeDenotes(input, 0, iv, After(input, Start(input, 0, probs), es));
    }
  }

  /** The input makes the decoder read these decisions with the code below the range, and then
      meet the last unit. */
  ghost predicate MeetsLastUnit(input: seq<nat>, probs: seq<nat>, es: seq<Event>)
    requires Probabilities(probs) && AllKnown(es, probs) && Good(Whole(probs))
  {
    AllBytes(input) && 4 + Scaled(Encode(Whole(probs), es)).bytes <= |input| &&
    var d := Start(input, 0, probs);
    Words(d) && ReadsInRange(input, d, es) && After(input, d, es).code < After(input, d, es).range
    && LastUnit(input, After(input, d, es), Fair)
  }

  lemma StartsInside(input: seq<nat>, probs: seq<nat>)
    requires AllBytes(input) && |input| >= 4 && Probabilities(probs)
    ensures Denotes(input, 0, Whole(probs), Start(input, 0, probs)) && Words(Start(input, 0, probs))
  {
    hide Value;
    Pow256Four();
    ValueBelow(input[0..4]);
  }

  /** The top of the interval does it; the code then equals the range. */
  lemma LastUnitReached(probs: seq<nat>, es: seq<Event>) returns (input: seq<nat>)
    requires Probabilities(probs) && AllKnown(es, probs) && Good(Whole(probs))
    requires Scaled(Encode(Whole(probs), es)).range % 2 == 1
    ensures MeetsLastUnit(input, probs, es)
    ensures var d := ReadBit(input, After(input, Start(input, 0, probs), es), Fair).1; d.code == d.range
  {
    hide Value; hide Encode; hide ReadsInRange;
    var iv := Encode(Whole(probs), es);
    input := ToBytes(iv.low + iv.range - 1, 4 + iv.bytes);
    FitsBytes(iv, iv.low + iv.range - 1);
    assert input[0..4 + iv.bytes] == input;
    assert Inside(input, 0, iv);
    Nested(input, 0, Whole(probs), es);
    StartsInside(input, probs);
    var d := Start(input, 0, probs);
    ReadsExactly(input, 0, Whole(probs), d, es);
    var e := After(input, d, es);
    hide After; hide Start;
    Halves(e.range, e.code);
  }

  /** Right after the reset the range is odd. */
  lemma OddAtReset(probs: seq<nat>)
    requires Probabilities(probs) && Good(Whole(probs))
    ensures AllKnown([], probs) && exists input :: MeetsLastUnit(input, probs, [])
  {
    assert Encode(Whole(probs), []) == Whole(probs);
    LastUnitExactly(probs, []);
  }
}
