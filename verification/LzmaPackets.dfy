/**
 What LZMA packets look like as binary decisions, from the side of an encoder, and the proof
 that they can be told apart: two different packets first differ in the outcome of a decision
 that both make with the same probability.
 */
module LzmaPackets {
  import opened Bits
  import opened LzmaRange

  // ----- where the probabilities are

  const STATES: nat := 12
  const POS_STATES: nat := 16
  const IS_MATCH: nat := 0
  const IS_REP: nat := 192
  const IS_REP0: nat := 204
  const IS_REP1: nat := 216
  const IS_REP2: nat := 228
  const IS_REP0_LONG: nat := 240
  const DIST_SLOT: nat := 432
  const DIST_SPECIAL: nat := 688
  const DIST_ALIGN: nat := 802
  const MATCH_LEN: nat := 818
  const REP_LEN: nat := 1332
  const LITERAL: nat := 1846
  const CODER_SIZE: nat := 0x300
  const TOTAL: nat := 14134

  // ----- numbers as decisions

  ghost function Ask(index: nat, bit: bool): seq<Event> {
    [Event(Context(index), bit)]
  }

  /** n bits, most significant first; each has a probability for every value of the bits
      before it. */
  ghost function Tree(base: nat, n: nat, v: nat): (es: seq<Event>)
    ensures |es| == n
  {
    if n == 0 then [] else Tree(base, n - 1, v / 2) + Ask(base + Pow2(n - 1) + v / 2, v % 2 == 1)
  }

  /** The same, least significant bit first; base is where a zeroth entry would be. */
  ghost function Reverse(base: int, n: nat, v: nat): (es: seq<Event>)
    requires base + 1 >= 0
    ensures |es| == n
  {
    if n == 0 then []
    else Reverse(base, n - 1, v) + Ask(base + Pow2(n - 1) + Rev(n - 1, v), v / Pow2(n - 1) % 2 == 1)
  }

  ghost function Even(n: nat, v: nat): (es: seq<Event>)
    ensures |es| == n
  {
    if n == 0 then [] else Even(n - 1, v / 2) + [Event(Fair, v % 2 == 1)]
  }

  /** n bits of a literal after a match, with the same bits m of the byte at the match
      distance; that byte selects the probability for as long as the two agree. */
  ghost function Matched(base: nat, n: nat, m: nat, v: nat): (es: seq<Event>)
    ensures |es| == n
  {
    if n == 0 then []
    else
      Matched(base, n - 1, m / 2, v / 2)
      + Ask(base + Pow2(n - 1) + v / 2 + (if m / 2 == v / 2 then 256 * (1 + m % 2) else 0), v % 2 == 1)
  }

  // ----- lengths and distances

  ghost function LenEvents(base: nat, pos: nat, len: nat): seq<Event>
    requires 2 <= len <= 273
  {
    if len < 10 then Ask(base, false) + Tree(base + 2 + pos * 8, 3, len - 2)
    else if len < 18 then Ask(base, true) + Ask(base + 1, false) + Tree(base + 130 + pos * 8, 3, len - 10)
    else Ask(base, true) + Ask(base + 1, true) + Tree(base + 258, 8, len - 18)
  }

  /** The position of the highest bit. */
  ghost function Log(x: nat): nat {
    if x < 2 then 0 else 1 + Log(x / 2)
  }

  lemma {:induction false} LogIs(x: nat, n: nat)
    requires Pow2(n) <= x < Pow2(n + 1)
    ensures Log(x) == n
  {
    if n > 0 {
      LogIs(x / 2, n - 1);
    }
  }

  lemma {:induction false} LogBounds(x: nat)
    requires x > 0
    ensures Pow2(Log(x)) <= x < Pow2(Log(x) + 1)
  {
    if x >= 2 {
      LogBounds(x / 2);
    }
  }

  /** A distance is its slot, which has the two highest bits, and the bits below them. */
  ghost function Slot(dist: nat): nat {
    if dist < 4 then dist else 2 * Log(dist) + dist / Pow2(Log(dist) - 1) % 2
  }

  ghost function FooterBits(slot: nat): nat
    requires slot >= 4
  {
    slot / 2 - 1
  }

  ghost function SlotBase(slot: nat): nat
    requires slot >= 4
  {
    (2 + slot % 2) * Pow2(FooterBits(slot))
  }

  /** Every slot of at least 4 and every footer make up one distance. */
  lemma SlotOf(slot: nat, r: nat)
    requires slot >= 4 && r < Pow2(FooterBits(slot))
    ensures SlotBase(slot) + r >= 4 && Slot(SlotBase(slot) + r) == slot
    ensures Pow2(FooterBits(slot) + 1) <= SlotBase(slot) && SlotBase(slot) + r < Pow2(FooterBits(slot) + 2)
  {
    var n := FooterBits(slot);
    BaseBounds(slot);
    var dist := SlotBase(slot) + r;
    LogIs(dist, n + 1);
    hide Pow2; hide Log;
    DivModUnique(dist, Pow2(n), 2 + slot % 2, r);
  }

  lemma BaseBounds(slot: nat)
    requires slot >= 4
    ensures var n := FooterBits(slot);
            && Pow2(n + 1) == 2 * Pow2(n) && Pow2(n + 2) == 4 * Pow2(n)
            && 4 <= 2 * Pow2(n) <= SlotBase(slot) <= 3 * Pow2(n)
  {
    var n := FooterBits(slot);
    Pow2Mono(1, n);
    assert Pow2(1) == 2;
    MulMono(2, 2 + slot % 2, Pow2(n));
    MulMono(2 + slot % 2, 3, Pow2(n));
  }

  /** Every distance of at least 4 is a slot and a footer. */
  lemma SlotFooter(dist: nat)
    requires dist >= 4
    ensures Slot(dist) >= 4 && SlotBase(Slot(dist)) <= dist < SlotBase(Slot(dist)) + Pow2(FooterBits(Slot(dist)))
  {
    hide Pow2; hide Log; hide FooterBits; hide SlotBase;
    var n := LogAtLeastTwo(dist);
    var q := TwoHighBits(dist, n);
    SlotNumber(n, q);
  }

  lemma LogAtLeastTwo(dist: nat) returns (n: nat)
    requires dist >= 4
    ensures n >= 1 && Log(dist) == n + 1 && Pow2(n + 1) <= dist < Pow2(n + 2)
  {
    LogBounds(dist);
    n := Log(dist) - 1;
  }

  lemma SlotNumber(n: nat, q: nat)
    requires n >= 1 && (q == 2 || q == 3)
    ensures 2 * (n + 1) + q % 2 == 2 * n + q
    ensures FooterBits(2 * n + q) == n && SlotBase(2 * n + q) == q * Pow2(n)
  {
    hide Pow2;
  }

  lemma TwoHighBits(dist: nat, n: nat) returns (q: nat)
    requires Pow2(n + 1) <= dist < Pow2(n + 2)
    ensures q == dist / Pow2(n) && (q == 2 || q == 3) && q * Pow2(n) <= dist < q * Pow2(n) + Pow2(n)
  {
    var p := Pow2(n);
    assert 2 * p <= dist < 4 * p;
    hide Pow2;
    QuotientNonNegative(dist, p);
    q := dist / p;
    DivBound(dist, p, 4);
    if q < 2 {
      MulMono(q + 1, 2, p);
      MulDist(q, 1, p);
    }
  }

  lemma SlotSmall(dist: nat)
    requires dist < WORD
    ensures Slot(dist) < 64
  {
    if dist >= 4 {
      LogBounds(dist);
      if Log(dist) >= 32 {
        Pow2Mono(32, Log(dist));
        WordIsPow2();
      }
    }
  }

  lemma WordIsPow2()
    ensures Pow2(32) == WORD
  {
    Pow2Values();
    Pow2Add(8, 8);
    Pow2Add(16, 16);
  }

  ghost function FooterEvents(slot: nat, r: nat): seq<Event>
    requires slot >= 4
  {
    var n := FooterBits(slot);
    if slot < 14 then
      SpecialIndex(slot);
      Reverse(DIST_SPECIAL + SlotBase(slot) - slot - 1, n, r)
    else Even(n - 4, r / 16) + Reverse(DIST_ALIGN, 4, r % 16)
  }

  lemma SpecialIndex(slot: nat)
    requires 4 <= slot < 14
    ensures SlotBase(slot) >= slot && DIST_SPECIAL + SlotBase(slot) - slot - 1 + Pow2(FooterBits(slot)) <= DIST_ALIGN
  {
    Pow2Values();
    assert slot == 4 || slot == 5 || slot == 6 || slot == 7 || slot == 8
      || slot == 9 || slot == 10 || slot == 11 || slot == 12 || slot == 13;
  }

  ghost function DistState(len: nat): nat
    requires len >= 2
  {
    if len < 6 then len - 2 else 3
  }

  ghost function DistEvents(len: nat, dist: nat): seq<Event>
    requires len >= 2
  {
    Tree(DIST_SLOT + DistState(len) * 64, 6, Slot(dist))
    + (if dist < 4 then [] else SlotFooter(dist); FooterEvents(Slot(dist), dist - SlotBase(Slot(dist))))
  }

  // ----- packets

  datatype Packet = Literal(byte: nat) | Match(dist: nat, len: nat) | ShortRep | Rep(which: nat, len: nat)

  ghost predicate Encodable(p: Packet) {
    match p
    case Literal(b) => b < 256
    case Match(dist, len) => dist < WORD && 2 <= len <= 273
    case ShortRep => true
    case Rep(which, len) => which < 4 && 2 <= len <= 273
  }

  /** The kinds of the last packets and the last four distances, less one each. */
  datatype History = History(state: nat, d0: nat, d1: nat, d2: nat, d3: nat) {
    predicate Valid() {
      state < STATES && d0 < WORD && d1 < WORD && d2 < WORD && d3 < WORD
    }
  }

  /** What the probabilities depend on besides: the position, the literal coder and the byte
      at the last distance. */
  datatype Place = Place(pos: nat, coder: nat, matchByte: nat) {
    predicate Valid() {
      pos < POS_STATES && coder < 16 && matchByte < 256
    }
  }

  ghost function RepEvents(state: nat, which: nat): seq<Event> {
    if which == 1 then Ask(IS_REP0 + state, true) + Ask(IS_REP1 + state, false)
    else if which == 2 then Ask(IS_REP0 + state, true) + Ask(IS_REP1 + state, true) + Ask(IS_REP2 + state, false)
    else Ask(IS_REP0 + state, true) + Ask(IS_REP1 + state, true) + Ask(IS_REP2 + state, true)
  }

  ghost function LiteralEvents(h: History, w: Place, b: nat): seq<Event> {
    var base := LITERAL + w.coder * CODER_SIZE;
    if h.state < 7 then Tree(base, 8, b) else Matched(base, 8, w.matchByte, b)
  }

  ghost function PacketEvents(h: History, w: Place, p: Packet): seq<Event>
    requires Encodable(p)
  {
    var long := IS_REP0_LONG + h.state * POS_STATES + w.pos;
    Ask(IS_MATCH + h.state * POS_STATES + w.pos, !p.Literal?) +
    match p
    case Literal(b) => LiteralEvents(h, w, b)
    case Match(dist, len) => Ask(IS_REP + h.state, false) + (LenEvents(MATCH_LEN, w.pos, len) + DistEvents(len, dist))
    case ShortRep => Ask(IS_REP + h.state, true) + (Ask(IS_REP0 + h.state, false) + Ask(long, false))
    case Rep(which, len) =>
      Ask(IS_REP + h.state, true) +
      (if which == 0 then Ask(IS_REP0 + h.state, false) + (Ask(long, true) + LenEvents(REP_LEN, w.pos, len))
       else RepEvents(h.state, which) + LenEvents(REP_LEN, w.pos, len))
  }

  ghost function NextState(state: nat, p: Packet): nat {
    match p
    case Literal(_) => if state <= 3 then 0 else if state <= 9 then state - 3 else state - 6
    case Match(_, _) => if state < 7 then 7 else 10
    case ShortRep => if state < 7 then 9 else 11
    case Rep(_, _) => if state < 7 then 8 else 11
  }

  /** A match puts its distance in front; a repetition moves the one it uses to the front. */
  ghost function NextHistory(h: History, p: Packet): (r: History)
    requires h.Valid() && Encodable(p)
    ensures r.Valid()
  {
    var s := NextState(h.state, p);
    match p
    case Match(dist, _) => History(s, dist, h.d0, h.d1, h.d2)
    case Rep(1, _) => History(s, h.d1, h.d0, h.d2, h.d3)
    case Rep(2, _) => History(s, h.d2, h.d0, h.d1, h.d3)
    case Rep(3, _) => History(s, h.d3, h.d0, h.d1, h.d2)
    case _ => h.(state := s)
  }

  // ----- what the history stands for

  /** The last four distances, less one each, the latest first. */
  function Distances(h: History): (r: seq<nat>)
    ensures |r| == 4
  {
    [h.d0, h.d1, h.d2, h.d3]
  }

  /** A match puts its distance in front of the three latest; a repetition moves its distance to
      the front and keeps the order of the others; nothing else changes a distance. */
  lemma DistancesMove(h: History, p: Packet)
    requires h.Valid() && Encodable(p)
    ensures var d, d' := Distances(h), Distances(NextHistory(h, p));
            match p
            case Match(dist, _) => d' == [dist] + d[..3]
            case Rep(w, _) => d' == [d[w]] + d[..w] + d[w + 1..] && multiset(d') == multiset(d)
            case _ => d' == d
  {
    var d := Distances(h);
    hide NextState;
    if p.Rep? {
      RepeatMoves(h, p);
      hide NextHistory; hide Distances;
      SamePermuted(d, p.which);
    }
  }

  lemma RepeatMoves(h: History, p: Packet)
    requires h.Valid() && Encodable(p) && p.Rep?
    ensures var d, w := Distances(h), p.which;
            Distances(NextHistory(h, p)) == [d[w]] + d[..w] + d[w + 1..]
  {
    hide NextState;
    var w := p.which;
    assert w == 0 || w == 1 || w == 2 || w == 3;
  }

  lemma SamePermuted(d: seq<nat>, w: nat)
    requires w < |d|
    ensures multiset([d[w]] + d[..w] + d[w + 1..]) == multiset(d)
  {
    assert d == d[..w] + [d[w]] + d[w + 1..];
  }

  /** The state after these packets from the reset on. */
  ghost function StateAfter(ps: seq<Packet>): nat {
    if ps == [] then 0 else NextState(StateAfter(ps[..|ps| - 1]), ps[|ps| - 1])
  }

  /** The number of literals at the end. */
  ghost function Trailing(ps: seq<Packet>): (n: nat)
    ensures n <= |ps| && forall i :: |ps| - n <= i < |ps| ==> ps[i].Literal?
    ensures n < |ps| ==> !ps[|ps| - n - 1].Literal?
  {
    if ps == [] || !ps[|ps| - 1].Literal? then 0 else 1 + Trailing(ps[..|ps| - 1])
  }

  /** Packet k comes first or after a literal. */
  ghost predicate AfterLiteral(ps: seq<Packet>, k: nat) {
    k == 0 || (k <= |ps| && ps[k - 1].Literal?)
  }

  /** The state tells how many literals came last, up to three, and of which kind the packet
      before them was, as far as it still matters: a match, a short repetition after a literal, or
      any other repetition; at once also whether that packet came after a literal. */
  ghost function StateMeaning(ps: seq<Packet>): nat {
    var n := Trailing(ps);
    if n >= 3 || n == |ps| then 0
    else
      var k := |ps| - n - 1;
      var kind := if ps[k].Match? then 0 else if ps[k].ShortRep? && AfterLiteral(ps, k) then 2 else 1;
      if n == 2 then 1 + kind
      else if n == 1 then 4 + kind
      else if AfterLiteral(ps, k) then 7 + kind
      else 10 + kind
  }

  lemma {:induction false} StateMeans(ps: seq<Packet>)
    ensures StateAfter(ps) == StateMeaning(ps)
  {
    if ps != [] {
      var before, k := ps[..|ps| - 1], |ps| - 1;
      StateMeans(before);
      if ps[k].Literal? {
        assert Trailing(ps) == Trailing(before) + 1;
      } else {
        assert Trailing(ps) == 0;
        assert AfterLiteral(ps, k) <==> Trailing(before) > 0 || before == [];
      }
    }
  }

  /** Literals are coded without the byte at the last distance exactly after a literal or at the
      reset. */
  lemma {:induction false} StateBelowSeven(ps: seq<Packet>)
    ensures StateAfter(ps) < 7 <==> ps == [] || ps[|ps| - 1].Literal?
  {
    StateMeans(ps);
  }

  // ----- every probability that is asked for exists

  ghost predicate Listed(es: seq<Event>) {
    forall i :: 0 <= i < |es| && es[i].choice.Context? ==> es[i].choice.index < TOTAL
  }

  lemma {:induction false} TreeListed(base: nat, n: nat, v: nat)
    requires v < Pow2(n) && base + Pow2(n) <= TOTAL
    ensures Listed(Tree(base, n, v))
  {
    if n > 0 {
      TreeListed(base, n - 1, v / 2);
    }
  }

  lemma {:induction false} MatchedListed(base: nat, n: nat, m: nat, v: nat)
    requires n <= 8 && m < Pow2(n) && v < Pow2(n) && base + CODER_SIZE <= TOTAL
    ensures Listed(Matched(base, n, m, v))
  {
    if n > 0 {
      Pow2Mono(n, 8);
      Pow2Values();
      MatchedListed(base, n - 1, m / 2, v / 2);
    }
  }

  lemma {:induction false} ReverseListed(base: int, n: nat, v: nat)
    requires base + 1 >= 0 && base + Pow2(n) <= TOTAL
    ensures Listed(Reverse(base, n, v))
  {
    if n > 0 {
      ReverseListed(base, n - 1, v);
    }
  }

  lemma {:induction false} EvenListed(n: nat, v: nat)
    ensures Listed(Even(n, v))
  {
    if n > 0 {
      EvenListed(n - 1, v / 2);
    }
  }

  lemma LenListed(base: nat, pos: nat, len: nat)
    requires 2 <= len <= 273 && pos < POS_STATES && base <= REP_LEN
    ensures Listed(LenEvents(base, pos, len))
  {
    Pow2Values();
    hide Tree; hide Pow2;
    if len < 10 {
      TreeListed(base + 2 + pos * 8, 3, len - 2);
    } else if len < 18 {
      TreeListed(base + 130 + pos * 8, 3, len - 10);
    } else {
      TreeListed(base + 258, 8, len - 18);
    }
  }

  lemma FooterListed(slot: nat, r: nat)
    requires slot >= 4
    ensures Listed(FooterEvents(slot, r))
  {
    hide Reverse; hide Even; hide SlotBase; hide Pow2;
    if slot < 14 {
      SpecialIndex(slot);
      ReverseListed(DIST_SPECIAL + SlotBase(slot) - slot - 1, FooterBits(slot), r);
    } else {
      Pow2Values();
      EvenListed(FooterBits(slot) - 4, r / 16);
      ReverseListed(DIST_ALIGN, 4, r % 16);
    }
  }

  lemma DistListed(len: nat, dist: nat)
    requires len >= 2 && dist < WORD
    ensures Listed(DistEvents(len, dist))
  {
    hide Tree; hide Pow2; hide Slot; hide FooterEvents; hide SlotBase; hide FooterBits;
    Pow2Values();
    SlotSmall(dist);
    TreeListed(DIST_SLOT + DistState(len) * 64, 6, Slot(dist));
    if dist >= 4 {
      SlotFooter(dist);
      FooterListed(Slot(dist), dist - SlotBase(Slot(dist)));
    }
  }

  lemma PacketListed(h: History, w: Place, p: Packet)
    requires h.Valid() && w.Valid() && Encodable(p)
    ensures Listed(PacketEvents(h, w, p))
  {
    Pow2Values();
    hide Tree; hide Matched; hide LenEvents; hide DistEvents; hide Pow2;
    match p
    case Literal(b) =>
      TreeListed(LITERAL + w.coder * CODER_SIZE, 8, b);
      MatchedListed(LITERAL + w.coder * CODER_SIZE, 8, w.matchByte, b);
    case Match(dist, len) =>
      LenListed(MATCH_LEN, w.pos, len);
      DistListed(len, dist);
    case ShortRep =>
    case Rep(which, len) =>
      LenListed(REP_LEN, w.pos, len);
  }

  // ----- different packets part at a decision

  /** The two agree up to a decision that both make in the same way but with different
      outcomes. */
  ghost predicate Part(a: seq<Event>, b: seq<Event>) {
    exists k: nat :: PartAt(a, b, k)
  }

  ghost predicate PartAt(a: seq<Event>, b: seq<Event>, k: nat) {
    k < |a| && k < |b| && a[..k] == b[..k] && a[k].choice == b[k].choice && a[k].bit != b[k].bit
  }

  lemma PartLeft(a: seq<Event>, x: seq<Event>, b: seq<Event>, y: seq<Event>)
    requires Part(a, b)
    ensures Part(a + x, b + y)
  {
    var k: nat :| PartAt(a, b, k);
    assert (a + x)[..k] == a[..k] && (b + y)[..k] == b[..k];
    assert PartAt(a + x, b + y, k);
  }

  lemma PartRight(a: seq<Event>, x: seq<Event>, y: seq<Event>)
    requires Part(x, y)
    ensures Part(a + x, a + y)
  {
    var k: nat :| PartAt(x, y, k);
    assert (a + x)[..|a| + k] == a + x[..k] && (a + y)[..|a| + k] == a + y[..k];
    assert PartAt(a + x, a + y, |a| + k);
  }

  lemma AskParts(index: nat, x: seq<Event>, y: seq<Event>)
    ensures Part(Ask(index, true) + x, Ask(index, false) + y) && Part(Ask(index, false) + y, Ask(index, true) + x)
  {
    var a, b := Ask(index, true) + x, Ask(index, false) + y;
    assert PartAt(a, b, 0) && PartAt(b, a, 0);
  }

  lemma OneParts(c: Choice, bit: bool, bit': bool)
    requires bit != bit'
    ensures Part([Event(c, bit)], [Event(c, bit')])
  {
    assert PartAt([Event(c, bit)], [Event(c, bit')], 0);
  }

  lemma {:induction false} TreesPart(base: nat, n: nat, v: nat, v': nat)
    requires v < Pow2(n) && v' < Pow2(n) && v != v'
    ensures Part(Tree(base, n, v), Tree(base, n, v'))
  {
    hide PartAt; hide Part;
    var a, b := Tree(base, n - 1, v / 2), Tree(base, n - 1, v' / 2);
    var x, y := Ask(base + Pow2(n - 1) + v / 2, v % 2 == 1), Ask(base + Pow2(n - 1) + v' / 2, v' % 2 == 1);
    if v / 2 != v' / 2 {
      TreesPart(base, n - 1, v / 2, v' / 2);
      PartLeft(a, x, b, y);
    } else {
      OneParts(Context(base + Pow2(n - 1) + v / 2), v % 2 == 1, v' % 2 == 1);
      PartRight(a, x, y);
    }
  }

  lemma {:induction false} MatchedPart(base: nat, n: nat, m: nat, v: nat, v': nat)
    requires v < Pow2(n) && v' < Pow2(n) && v != v'
    ensures Part(Matched(base, n, m, v), Matched(base, n, m, v'))
  {
    hide PartAt; hide Part;
    var a, b := Matched(base, n - 1, m / 2, v / 2), Matched(base, n - 1, m / 2, v' / 2);
    var i := base + Pow2(n - 1) + v / 2 + (if m / 2 == v / 2 then 256 * (1 + m % 2) else 0);
    var i' := base + Pow2(n - 1) + v' / 2 + (if m / 2 == v' / 2 then 256 * (1 + m % 2) else 0);
    var x, y := Ask(i, v % 2 == 1), Ask(i', v' % 2 == 1);
    if v / 2 != v' / 2 {
      MatchedPart(base, n - 1, m / 2, v / 2, v' / 2);
      PartLeft(a, x, b, y);
    } else {
      OneParts(Context(i), v % 2 == 1, v' % 2 == 1);
      PartRight(a, x, y);
    }
  }

  lemma {:induction false} EvensPart(n: nat, v: nat, v': nat)
    requires v < Pow2(n) && v' < Pow2(n) && v != v'
    ensures Part(Even(n, v), Even(n, v'))
  {
    hide PartAt; hide Part;
    var a, b := Even(n - 1, v / 2), Even(n - 1, v' / 2);
    var x, y := [Event(Fair, v % 2 == 1)], [Event(Fair, v' % 2 == 1)];
    if v / 2 != v' / 2 {
      EvensPart(n - 1, v / 2, v' / 2);
      PartLeft(a, x, b, y);
    } else {
      OneParts(Fair, v % 2 == 1, v' % 2 == 1);
      PartRight(a, x, y);
    }
  }

  /** n + 1 bits are the low n bits and the next. */
  lemma TopBit(v: nat, v': nat, n: nat)
    ensures v % Pow2(n + 1) == v' % Pow2(n + 1) <==> v % Pow2(n) == v' % Pow2(n) && v / Pow2(n) % 2 == v' / Pow2(n) % 2
  {
    Split(v, n, 1);
    Split(v', n, 1);
    assert Pow2(1) == 2;
  }

  /** Only the low n bits matter. */
  lemma {:induction false} ReverseLow(base: int, n: nat, v: nat, v': nat)
    requires base + 1 >= 0 && v % Pow2(n) == v' % Pow2(n)
    ensures Reverse(base, n, v) == Reverse(base, n, v')
  {
    if n > 0 {
      TopBit(v, v', n - 1);
      ReverseLow(base, n - 1, v, v');
      hide Rev; hide Pow2;
      RevLow(n - 1, v);
      RevLow(n - 1, v');
    }
  }

  lemma {:induction false} ReversesPart(base: int, n: nat, v: nat, v': nat)
    requires n > 0 && base + 1 >= 0 && v % Pow2(n) != v' % Pow2(n)
    ensures Part(Reverse(base, n, v), Reverse(base, n, v'))
  {
    hide PartAt; hide Part;
    var p := Pow2(n - 1);
    TopBit(v, v', n - 1);
    assert v % p != v' % p ==> n > 1 by { assert Pow2(0) == 1; }
    hide Pow2; hide Rev;
    var a, b := Reverse(base, n - 1, v), Reverse(base, n - 1, v');
    var x := Ask(base + p + Rev(n - 1, v), v / p % 2 == 1);
    var y := Ask(base + p + Rev(n - 1, v'), v' / p % 2 == 1);
    if v % p != v' % p {
      ReversesPart(base, n - 1, v, v');
      PartLeft(a, x, b, y);
    } else {
      ReverseLow(base, n - 1, v, v');
      RevLow(n - 1, v);
      RevLow(n - 1, v');
      assert v / p % 2 != v' / p % 2;
      OneParts(Context(base + p + Rev(n - 1, v)), v / p % 2 == 1, v' / p % 2 == 1);
      PartRight(a, x, y);
    }
  }

  lemma LensPart(base: nat, pos: nat, len: nat, len': nat)
    requires 2 <= len <= 273 && 2 <= len' <= 273 && len != len'
    ensures Part(LenEvents(base, pos, len), LenEvents(base, pos, len'))
  {
    if len > len' {
      LensPart(base, pos, len', len);
      PartSymmetric(LenEvents(base, pos, len'), LenEvents(base, pos, len));
    } else {
      LensPartOrdered(base, pos, len, len');
    }
  }

  lemma PartSymmetric(a: seq<Event>, b: seq<Event>)
    requires Part(a, b)
    ensures Part(b, a)
  {
    var k: nat :| PartAt(a, b, k);
    assert PartAt(b, a, k);
  }

  lemma LensPartOrdered(base: nat, pos: nat, len: nat, len': nat)
    requires 2 <= len < len' <= 273
    ensures Part(LenEvents(base, pos, len), LenEvents(base, pos, len'))
  {
    Pow2Values();
    hide PartAt; hide Part; hide Tree; hide Pow2; hide Ask;
    if len < 10 {
      var x := Tree(base + 2 + pos * 8, 3, len - 2);
      if len' < 10 {
        TreesPart(base + 2 + pos * 8, 3, len - 2, len' - 2);
        PartRight(Ask(base, false), x, Tree(base + 2 + pos * 8, 3, len' - 2));
      } else if len' < 18 {
        var y := Tree(base + 130 + pos * 8, 3, len' - 10);
        assert Ask(base, true) + Ask(base + 1, false) + y == Ask(base, true) + (Ask(base + 1, false) + y);
        AskParts(base, Ask(base + 1, false) + y, x);
      } else {
        var y := Tree(base + 258, 8, len' - 18);
        assert Ask(base, true) + Ask(base + 1, true) + y == Ask(base, true) + (Ask(base + 1, true) + y);
        AskParts(base, Ask(base + 1, true) + y, x);
      }
    } else if len < 18 {
      var x := Tree(base + 130 + pos * 8, 3, len - 10);
      if len' < 18 {
        TreesPart(base + 130 + pos * 8, 3, len - 10, len' - 10);
        PartRight(Ask(base, true) + Ask(base + 1, false), x, Tree(base + 130 + pos * 8, 3, len' - 10));
      } else {
        var y := Tree(base + 258, 8, len' - 18);
        AskParts(base + 1, y, x);
        PartRight(Ask(base, true), Ask(base + 1, false) + x, Ask(base + 1, true) + y);
        assert Ask(base, true) + Ask(base + 1, false) + x == Ask(base, true) + (Ask(base + 1, false) + x);
        assert Ask(base, true) + Ask(base + 1, true) + y == Ask(base, true) + (Ask(base + 1, true) + y);
      }
    } else {
      TreesPart(base + 258, 8, len - 18, len' - 18);
      PartRight(Ask(base, true) + Ask(base + 1, true), Tree(base + 258, 8, len - 18), Tree(base + 258, 8, len' - 18));
    }
  }

  lemma FootersPart(slot: nat, r: nat, r': nat)
    requires slot >= 4 && r < Pow2(FooterBits(slot)) && r' < Pow2(FooterBits(slot)) && r != r'
    ensures Part(FooterEvents(slot, r), FooterEvents(slot, r'))
  {
    hide PartAt; hide Part; hide Even; hide Reverse; hide SlotBase; hide Pow2;
    var n := FooterBits(slot);
    if slot < 14 {
      SpecialIndex(slot);
      ModFacts(r, Pow2(n));
      ModFacts(r', Pow2(n));
      ReversesPart(DIST_SPECIAL + SlotBase(slot) - slot - 1, n, r, r');
    } else {
      LongFootersPart(n - 4, r, r');
    }
  }

  lemma LongFootersPart(n: nat, r: nat, r': nat)
    requires r < Pow2(n + 4) && r' < Pow2(n + 4) && r != r'
    ensures Part(Even(n, r / 16) + Reverse(DIST_ALIGN, 4, r % 16), Even(n, r' / 16) + Reverse(DIST_ALIGN, 4, r' % 16))
  {
    hide PartAt; hide Part; hide Even; hide Reverse;
    var a, b := Even(n, r / 16), Even(n, r' / 16);
    var x, y := Reverse(DIST_ALIGN, 4, r % 16), Reverse(DIST_ALIGN, 4, r' % 16);
    Pow2Values();
    Pow2Add(n, 4);
    hide Pow2;
    if r / 16 != r' / 16 {
      DivBound(r, 16, Pow2(n));
      DivBound(r', 16, Pow2(n));
      EvensPart(n, r / 16, r' / 16);
      PartLeft(a, x, b, y);
    } else {
      ModFacts(r % 16, 16);
      ModFacts(r' % 16, 16);
      ReversesPart(DIST_ALIGN, 4, r % 16, r' % 16);
      PartRight(a, x, y);
    }
  }

  /** The decisions of a distance behind its slot. */
  ghost function BehindSlot(dist: nat): seq<Event> {
    if dist < 4 then [] else SlotFooter(dist); FooterEvents(Slot(dist), dist - SlotBase(Slot(dist)))
  }

  lemma DistShape(len: nat, dist: nat)
    requires len >= 2
    ensures DistEvents(len, dist) == Tree(DIST_SLOT + DistState(len) * 64, 6, Slot(dist)) + BehindSlot(dist)
  {
    hide Tree; hide SlotBase; hide FooterEvents; hide Slot;
  }

  lemma SameSlotParts(dist: nat, dist': nat)
    requires dist != dist' && Slot(dist) == Slot(dist')
    ensures Part(BehindSlot(dist), BehindSlot(dist'))
  {
    SlotIsBig(dist);
    SlotIsBig(dist');
    hide PartAt; hide Part; hide SlotBase; hide FooterEvents; hide Pow2; hide FooterBits; hide Slot;
    SlotFooter(dist);
    SlotFooter(dist');
    var slot := Slot(dist);
    FootersPart(slot, dist - SlotBase(slot), dist' - SlotBase(slot));
  }

  lemma DistsPart(len: nat, dist: nat, dist': nat)
    requires len >= 2 && dist < WORD && dist' < WORD && dist != dist'
    ensures Part(DistEvents(len, dist), DistEvents(len, dist'))
  {
    Pow2Values();
    hide Part; hide Tree; hide Pow2; hide DistEvents; hide BehindSlot; hide Slot;
    SlotSmall(dist);
    SlotSmall(dist');
    DistShape(len, dist);
    DistShape(len, dist');
    var base := DIST_SLOT + DistState(len) * 64;
    if Slot(dist) != Slot(dist') {
      TreesPart(base, 6, Slot(dist), Slot(dist'));
      PartLeft(Tree(base, 6, Slot(dist)), BehindSlot(dist), Tree(base, 6, Slot(dist')), BehindSlot(dist'));
    } else {
      SameSlotParts(dist, dist');
      PartRight(Tree(base, 6, Slot(dist)), BehindSlot(dist), BehindSlot(dist'));
    }
  }

  lemma SlotIsBig(dist: nat)
    ensures Slot(dist) >= 4 <==> dist >= 4
    ensures dist < 4 ==> Slot(dist) == dist
  {
    if dist >= 4 {
      SlotFooter(dist);
    }
  }

  // ----- packets part

  lemma LiteralsPart(h: History, w: Place, b: nat, b': nat)
    requires b < 256 && b' < 256 && b != b'
    ensures Part(LiteralEvents(h, w, b), LiteralEvents(h, w, b'))
  {
    Pow2Values();
    hide Part; hide Tree; hide Matched; hide Pow2;
    TreesPart(LITERAL + w.coder * CODER_SIZE, 8, b, b');
    MatchedPart(LITERAL + w.coder * CODER_SIZE, 8, w.matchByte, b, b');
  }

  lemma MatchesPart(pos: nat, p: Packet, p': Packet)
    requires p.Match? && p'.Match? && Encodable(p) && Encodable(p') && p != p'
    ensures Part(LenEvents(MATCH_LEN, pos, p.len) + DistEvents(p.len, p.dist),
        LenEvents(MATCH_LEN, pos, p'.len) + DistEvents(p'.len, p'.dist))
  {
    hide Part; hide LenEvents; hide DistEvents;
    var a, b := LenEvents(MATCH_LEN, pos, p.len), LenEvents(MATCH_LEN, pos, p'.len);
    var x, y := DistEvents(p.len, p.dist), DistEvents(p'.len, p'.dist);
    if p.len != p'.len {
      LensPart(MATCH_LEN, pos, p.len, p'.len);
      PartLeft(a, x, b, y);
    } else {
      DistsPart(p.len, p.dist, p'.dist);
      PartRight(a, x, y);
    }
  }

  /** The decisions of a repeated match after the one that says so. */
  ghost function Repeated(h: History, w: Place, p: Packet): seq<Event>
    requires Encodable(p) && (p.ShortRep? || p.Rep?)
  {
    var long := IS_REP0_LONG + h.state * POS_STATES + w.pos;
    if p.ShortRep? then Ask(IS_REP0 + h.state, false) + Ask(long, false)
    else if p.which == 0 then Ask(IS_REP0 + h.state, false) + (Ask(long, true) + LenEvents(REP_LEN, w.pos, p.len))
    else RepEvents(h.state, p.which) + LenEvents(REP_LEN, w.pos, p.len)
  }

  /** Which repetition it is, in the order of the number of decisions: short, 0, 1, 2, 3. */
  ghost function Rank(p: Packet): int
    requires p.ShortRep? || p.Rep?
  {
    if p.ShortRep? then -1 else p.which
  }

  lemma RepeatedPart(h: History, w: Place, p: Packet, p': Packet)
    requires Encodable(p) && Encodable(p') && (p.ShortRep? || p.Rep?) && (p'.ShortRep? || p'.Rep?)
    requires p != p' && Rank(p) <= Rank(p')
    ensures Part(Repeated(h, w, p), Repeated(h, w, p'))
  {
    hide Part; hide LenEvents; hide Ask;
    var long := IS_REP0_LONG + h.state * POS_STATES + w.pos;
    var a0, a1, a2 := IS_REP0 + h.state, IS_REP1 + h.state, IS_REP2 + h.state;
    if Rank(p) == Rank(p') {
      var x, y := LenEvents(REP_LEN, w.pos, p.len), LenEvents(REP_LEN, w.pos, p'.len);
      LensPart(REP_LEN, w.pos, p.len, p'.len);
      if p.which == 0 {
        PartRight(Ask(long, true), x, y);
        PartRight(Ask(a0, false), Ask(long, true) + x, Ask(long, true) + y);
      } else {
        PartRight(RepEvents(h.state, p.which), x, y);
      }
    } else if p'.which == 0 {
      AskParts(long, LenEvents(REP_LEN, w.pos, p'.len), []);
      assert Ask(long, false) + [] == Ask(long, false);
      PartRight(Ask(a0, false), Ask(long, false), Ask(long, true) + LenEvents(REP_LEN, w.pos, p'.len));
    } else {
      var y := LenEvents(REP_LEN, w.pos, p'.len);
      var rest :=
        if p'.which == 1 then Ask(a1, false)
        else if p'.which == 2 then Ask(a1, true) + Ask(a2, false)
        else Ask(a1, true) + Ask(a2, true);
      assert RepEvents(h.state, p'.which) == Ask(a0, true) + rest;
      assert Repeated(h, w, p') == Ask(a0, true) + (rest + y);
      if Rank(p) <= 0 {
        AskParts(a0, rest + y, if p.ShortRep? then Ask(long, false) else Ask(long, true) + LenEvents(REP_LEN, w.pos, p.len));
      } else {
        LaterRepsPart(h.state, p.which, p'.which, LenEvents(REP_LEN, w.pos, p.len), y);
      }
    }
  }

  lemma LaterRepsPart(state: nat, i: nat, j: nat, x: seq<Event>, y: seq<Event>)
    requires 1 <= i < j <= 3
    ensures Part(RepEvents(state, i) + x, RepEvents(state, j) + y)
  {
    hide Part; hide Ask;
    var a0, a1, a2 := Ask(IS_REP0 + state, true), Ask(IS_REP1 + state, true), Ask(IS_REP2 + state, true);
    if i == 1 {
      var n := Ask(IS_REP1 + state, false);
      var z := if j == 2 then Ask(IS_REP2 + state, false) else a2;
      AskParts(IS_REP1 + state, z + y, x);
      PartRight(a0, n + x, a1 + (z + y));
      assert RepEvents(state, i) + x == a0 + (n + x);
      assert RepEvents(state, j) + y == a0 + (a1 + (z + y));
    } else {
      var n := Ask(IS_REP2 + state, false);
      AskParts(IS_REP2 + state, y, x);
      PartRight(a0 + a1, n + x, a2 + y);
      assert RepEvents(state, i) + x == a0 + a1 + (n + x);
      assert RepEvents(state, j) + y == a0 + a1 + (a2 + y);
    }
  }

  lemma PacketShape(h: History, w: Place, p: Packet)
    requires Encodable(p)
    ensures PacketEvents(h, w, p) == Ask(IS_MATCH + h.state * POS_STATES + w.pos, !p.Literal?) +
              (if p.Literal? then LiteralEvents(h, w, p.byte)
               else Ask(IS_REP + h.state, !p.Match?) +
                    (if p.Match? then LenEvents(MATCH_LEN, w.pos, p.len) + DistEvents(p.len, p.dist) else Repeated(h, w, p)))
  {
  }

  /** Different packets part, wherever they are read. */
  lemma PacketsPart(h: History, w: Place, p: Packet, p': Packet)
    requires Encodable(p) && Encodable(p') && p != p'
    ensures Part(PacketEvents(h, w, p), PacketEvents(h, w, p'))
  {
    PacketShape(h, w, p);
    PacketShape(h, w, p');
    hide Part; hide LenEvents; hide DistEvents; hide LiteralEvents; hide Repeated; hide Ask; hide PacketEvents;
    var i, j := IS_MATCH + h.state * POS_STATES + w.pos, IS_REP + h.state;
    var x :=
      if p.Match? then LenEvents(MATCH_LEN, w.pos, p.len) + DistEvents(p.len, p.dist)
      else if p.Literal? then []
      else Repeated(h, w, p);
    var y :=
      if p'.Match? then LenEvents(MATCH_LEN, w.pos, p'.len) + DistEvents(p'.len, p'.dist)
      else if p'.Literal? then []
      else Repeated(h, w, p');
    var u := if p.Literal? then LiteralEvents(h, w, p.byte) else Ask(j, !p.Match?) + x;
    var v := if p'.Literal? then LiteralEvents(h, w, p'.byte) else Ask(j, !p'.Match?) + y;
    if p.Literal? != p'.Literal? {
      if p.Literal? {
        AskParts(i, v, u);
      } else {
        AskParts(i, u, v);
      }
    } else {
      if p.Literal? {
        LiteralsPart(h, w, p.byte, p'.byte);
      } else if p.Match? != p'.Match? {
        if p.Match? {
          AskParts(j, y, x);
        } else {
          AskParts(j, x, y);
        }
      } else {
        if p.Match? {
          MatchesPart(w.pos, p, p');
        } else if Rank(p) <= Rank(p') {
          RepeatedPart(h, w, p, p');
        } else {
          RepeatedPart(h, w, p', p);
          PartSymmetric(y, x);
        }
        PartRight(Ask(j, !p.Match?), x, y);
      }
      PartRight(Ask(i, !p.Literal?), u, v);
    }
  }
}
