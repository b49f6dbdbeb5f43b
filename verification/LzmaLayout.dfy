/**
 Which probability belongs to which decision: every decision of a packet has one of its own, and
 no two decisions share one.
 */
module LzmaLayout {
  import opened Bits
  import opened LzmaRange
  import opened LzmaPackets

  /** What a decision asks.  A node is a one followed by the bits of the number known so far. */
  datatype Question =
    | IsMatch(state: nat, pos: nat)
    | IsRepeat(state: nat)
    | NotFirst(state: nat)
    | NotSecond(state: nat)
    | NotThird(state: nat)
    | IsLong(state: nat, pos: nat)
    | SlotBit(lengths: nat, node: nat)
    | FooterBit(slot: nat, node: nat)
    | AlignBit(node: nat)
    | NotShort(repeat: bool)
    | NotMiddle(repeat: bool)
    | ShortBit(repeat: bool, pos: nat, node: nat)
    | MiddleBit(repeat: bool, pos: nat, node: nat)
    | LongBit(repeat: bool, node: nat)
    | LiteralBit(coder: nat, node: nat)

  ghost predicate Valid(q: Question) {
    match q
    case IsMatch(s, p) => s < STATES && p < POS_STATES
    case IsRepeat(s) => s < STATES
    case NotFirst(s) => s < STATES
    case NotSecond(s) => s < STATES
    case NotThird(s) => s < STATES
    case IsLong(s, p) => s < STATES && p < POS_STATES
    case SlotBit(l, n) => l < 4 && 1 <= n < 64
    case FooterBit(s, n) => 4 <= s < 14 && 1 <= n < Pow2(FooterBits(s))
    case AlignBit(n) => 1 <= n < 16
    case NotShort(_) => true
    case NotMiddle(_) => true
    case ShortBit(_, p, n) => p < POS_STATES && 1 <= n < 8
    case MiddleBit(_, p, n) => p < POS_STATES && 1 <= n < 8
    case LongBit(_, n) => 1 <= n < 256
    case LiteralBit(c, n) => c < 16 && 1 <= n < CODER_SIZE
  }

  function LengthBase(repeat: bool): nat {
    if repeat then REP_LEN else MATCH_LEN
  }

  /** The index of the probability of a question. */
  ghost function Index(q: Question): int
    requires Valid(q)
  {
    match q
    case IsMatch(s, p) => IS_MATCH + s * POS_STATES + p
    case IsRepeat(s) => IS_REP + s
    case NotFirst(s) => IS_REP0 + s
    case NotSecond(s) => IS_REP1 + s
    case NotThird(s) => IS_REP2 + s
    case IsLong(s, p) => IS_REP0_LONG + s * POS_STATES + p
    case SlotBit(l, n) => DIST_SLOT + l * 64 + n
    case FooterBit(s, n) => DIST_SPECIAL + SlotBase(s) - s - 1 + n
    case AlignBit(n) => DIST_ALIGN + n
    case NotShort(r) => LengthBase(r)
    case NotMiddle(r) => LengthBase(r) + 1
    case ShortBit(r, p, n) => LengthBase(r) + 2 + p * 8 + n
    case MiddleBit(r, p, n) => LengthBase(r) + 130 + p * 8 + n
    case LongBit(r, n) => LengthBase(r) + 258 + n
    case LiteralBit(c, n) => LITERAL + c * CODER_SIZE + n
  }

  /** The parts of the array, one for each kind of question. */
  function Kind(q: Question): nat {
    match q
    case IsMatch(_, _) => 0
    case IsRepeat(_) => 1
    case NotFirst(_) => 2
    case NotSecond(_) => 3
    case NotThird(_) => 4
    case IsLong(_, _) => 5
    case SlotBit(_, _) => 6
    case FooterBit(_, _) => 7
    case AlignBit(_) => 8
    case LiteralBit(_, _) => 11
    case _ => if q.repeat then 10 else 9
  }

  /** How many probabilities each part has, and where it starts. */
  function Size(kind: nat): nat {
    if kind == 0 || kind == 5 then 12 * 16
    else if kind < 5 then 12
    else if kind == 6 then 4 * 64
    else if kind == 7 then 2 * (1 + 3 + 7 + 15 + 31)
    else if kind == 8 then 16
    else if kind == 9 || kind == 10 then 2 + 2 * (16 * 8) + 256
    else 16 * 0x300
  }

  function Begin(kind: nat): nat {
    if kind == 0 then 0 else Begin(kind - 1) + Size(kind - 1)
  }

  lemma Begins()
    ensures Begin(0) == IS_MATCH && Begin(1) == IS_REP && Begin(2) == IS_REP0 && Begin(3) == IS_REP1 && Begin(4) == IS_REP2
    ensures Begin(5) == IS_REP0_LONG && Begin(6) == DIST_SLOT && Begin(7) == DIST_SPECIAL && Begin(8) == DIST_ALIGN
    ensures Begin(9) == MATCH_LEN && Begin(10) == REP_LEN && Begin(11) == LITERAL && Begin(12) == TOTAL
  {
    assert Begin(4) == 228;
    assert Begin(8) == 802;
  }

  /** The tables of the footers follow each other. */
  function FooterStart(slot: nat): nat {
    if slot == 4 then 0 else if slot == 5 then 1 else if slot == 6 then 2 else if slot == 7 then 5
    else if slot == 8 then 8 else if slot == 9 then 15 else if slot == 10 then 22 else if slot == 11 then 37
    else if slot == 12 then 52 else 83
  }

  lemma FooterTables(slot: nat)
    requires 4 <= slot < 14
    ensures SlotBase(slot) - slot == FooterStart(slot) && Pow2(FooterBits(slot)) >= 2
    ensures FooterStart(slot) + Pow2(FooterBits(slot)) - 1 == if slot == 13 then 114 else FooterStart(slot + 1)
  {
    Pow2Values();
    assert slot == 4 || slot == 5 || slot == 6 || slot == 7 || slot == 8
      || slot == 9 || slot == 10 || slot == 11 || slot == 12 || slot == 13;
  }

  lemma {:induction false} FooterOrder(a: nat, b: nat)
    requires 4 <= a < b < 14
    ensures FooterStart(a) + Pow2(FooterBits(a)) - 1 <= FooterStart(b)
    decreases b
  {
    hide FooterBits; hide Pow2;
    FooterTables(a);
    if b > a + 1 {
      FooterOrder(a, b - 1);
      FooterTables(b - 1);
    }
  }

  lemma FooterEnds(slot: nat)
    requires 4 <= slot < 14
    ensures FooterStart(slot) + Pow2(FooterBits(slot)) - 1 <= 114
  {
    hide FooterBits; hide Pow2;
    FooterTables(slot);
    FooterTables(13);
    if slot < 13 {
      FooterOrder(slot, 13);
    }
  }

  /** Every question is in the part of its kind. */
  lemma InPart(q: Question)
    requires Valid(q)
    ensures Begin(Kind(q)) <= Index(q) < Begin(Kind(q)) + Size(Kind(q)) && Kind(q) < 12
  {
    Begins();
    hide Begin; hide SlotBase; hide Pow2; hide FooterBits;
    if q.FooterBit? {
      FooterEnds(q.slot);
      FooterTables(q.slot);
      assert Index(q) == DIST_SPECIAL + FooterStart(q.slot) - 1 + q.node;
    }
  }

  lemma {:induction false} PartsApart(a: nat, b: nat)
    requires a < b
    ensures Begin(a) + Size(a) <= Begin(b)
    decreases b
  {
    hide Size;
    if b > a + 1 {
      PartsApart(a, b - 1);
    }
  }

  lemma TwoDigits(a: nat, b: nat, m: nat, n: nat, w: nat)
    requires m < w && n < w && a * w + m == b * w + n
    ensures a == b && m == n
  {
    DivModUnique(a * w + m, w, a, m);
    DivModUnique(b * w + n, w, b, n);
  }

  lemma SameFooter(q: Question, r: Question)
    requires q.FooterBit? && r.FooterBit? && Valid(q) && Valid(r) && Index(q) == Index(r)
    ensures q == r
  {
    hide FooterBits; hide Pow2; hide SlotBase; hide FooterStart;
    FooterTables(q.slot);
    FooterTables(r.slot);
    if q.slot < r.slot {
      FooterOrder(q.slot, r.slot);
    } else if r.slot < q.slot {
      FooterOrder(r.slot, q.slot);
    }
  }

  lemma SameLength(q: Question, r: Question)
    requires Valid(q) && Valid(r) && Kind(q) in {9, 10} && Kind(q) == Kind(r) && Index(q) == Index(r)
    ensures q == r
  {
    if q.ShortBit? && r.ShortBit? {
      TwoDigits(q.pos, r.pos, q.node, r.node, 8);
    } else if q.MiddleBit? && r.MiddleBit? {
      TwoDigits(q.pos, r.pos, q.node, r.node, 8);
    }
  }

  /** No two questions share a probability. */
  lemma IndexInjective(q: Question, r: Question)
    requires Valid(q) && Valid(r) && Index(q) == Index(r)
    ensures q == r
  {
    InPart(q);
    InPart(r);
    if Kind(q) < Kind(r) {
      PartsApart(Kind(q), Kind(r));
    } else if Kind(r) < Kind(q) {
      PartsApart(Kind(r), Kind(q));
    } else if Kind(q) == 7 {
      SameFooter(q, r);
    } else if Kind(q) in {9, 10} {
      SameLength(q, r);
    } else {
      hide Begin; hide Size; hide SlotBase; hide FooterBits; hide Pow2;
      match q
      case IsMatch(s, p) => TwoDigits(s, r.state, p, r.pos, POS_STATES);
      case IsLong(s, p) => TwoDigits(s, r.state, p, r.pos, POS_STATES);
      case SlotBit(l, n) => TwoDigits(l, r.lengths, n, r.node, 64);
      case LiteralBit(c, n) => TwoDigits(c, r.coder, n, r.node, CODER_SIZE);
      case _ =>
    }
  }

  // ----- what a packet asks

  /** The question may be asked for packet p after history h at place w. */
  ghost predicate Asked(h: History, w: Place, p: Packet, q: Question)
    requires Encodable(p)
  {
    match q
    case IsMatch(s, pos) => s == h.state && pos == w.pos
    case LiteralBit(c, _) => p.Literal? && c == w.coder
    case IsRepeat(s) => !p.Literal? && s == h.state
    case NotFirst(s) => (p.ShortRep? || p.Rep?) && s == h.state
    case IsLong(s, pos) => (p.ShortRep? || (p.Rep? && p.which == 0)) && s == h.state && pos == w.pos
    case NotSecond(s) => p.Rep? && p.which > 0 && s == h.state
    case NotThird(s) => p.Rep? && p.which > 1 && s == h.state
    case SlotBit(l, _) => p.Match? && l == DistState(p.len)
    case FooterBit(slot, _) => p.Match? && p.dist >= 4 && slot == Slot(p.dist)
    case AlignBit(_) => p.Match? && Slot(p.dist) >= 14
    case NotShort(r) => LengthAsked(p, r)
    case NotMiddle(r) => LengthAsked(p, r) && LengthIn(p) >= 10
    case ShortBit(r, pos, _) => LengthAsked(p, r) && pos == w.pos && LengthIn(p) < 10
    case MiddleBit(r, pos, _) => LengthAsked(p, r) && pos == w.pos && 10 <= LengthIn(p) < 18
    case LongBit(r, _) => LengthAsked(p, r) && LengthIn(p) >= 18
  }

  ghost predicate LengthAsked(p: Packet, repeat: bool) {
    if repeat then p.Rep? else p.Match?
  }

  ghost function LengthIn(p: Packet): nat {
    if p.Match? then p.len else if p.Rep? then p.len else 0
  }

  ghost predicate Answers(h: History, w: Place, p: Packet, index: nat)
    requires Encodable(p)
  {
    exists q :: Valid(q) && Asked(h, w, p, q) && Index(q) == index
  }

  ghost predicate AllAsked(h: History, w: Place, p: Packet, es: seq<Event>)
    requires Encodable(p)
  {
    forall i :: 0 <= i < |es| && es[i].choice.Context? ==> Answers(h, w, p, es[i].choice.index)
  }

  lemma AskedJoin(h: History, w: Place, p: Packet, a: seq<Event>, b: seq<Event>)
    requires Encodable(p) && AllAsked(h, w, p, a) && AllAsked(h, w, p, b)
    ensures AllAsked(h, w, p, a + b)
  {
    hide Answers;
  }

  lemma AskedOne(h: History, w: Place, p: Packet, q: Question, bit: bool)
    requires Encodable(p) && Valid(q) && Asked(h, w, p, q) && Index(q) >= 0
    ensures AllAsked(h, w, p, Ask(Index(q), bit))
  {
  }

  /** The indices of n bits: base and a node. */
  ghost predicate NodesOf(es: seq<Event>, base: int, end: nat) {
    forall i :: 0 <= i < |es| && es[i].choice.Context? ==> base + 1 <= es[i].choice.index < base + end
  }

  lemma {:induction false} TreeNodes(base: nat, n: nat, v: nat)
    requires v < Pow2(n)
    ensures NodesOf(Tree(base, n, v), base, Pow2(n))
  {
    if n > 0 {
      TreeNodes(base, n - 1, v / 2);
    }
  }

  lemma {:induction false} ReverseNodes(base: int, n: nat, v: nat)
    requires base + 1 >= 0
    ensures NodesOf(Reverse(base, n, v), base, Pow2(n))
  {
    if n > 0 {
      ReverseNodes(base, n - 1, v);
    }
  }

  lemma {:induction false} EvenNodes(n: nat, v: nat)
    ensures forall i :: 0 <= i < n ==> Even(n, v)[i].choice.Fair?
  {
    if n > 0 {
      EvenNodes(n - 1, v / 2);
    }
  }

  lemma {:induction false} MatchedNodes(base: nat, n: nat, m: nat, v: nat)
    requires n <= 8 && m < Pow2(n) && v < Pow2(n)
    ensures NodesOf(Matched(base, n, m, v), base, CODER_SIZE)
  {
    if n > 0 {
      Pow2Mono(n, 8);
      Pow2Values();
      MatchedNodes(base, n - 1, m / 2, v / 2);
    }
  }

  lemma LiteralAsked(h: History, w: Place, p: Packet)
    requires h.Valid() && w.Valid() && Encodable(p) && p.Literal?
    ensures AllAsked(h, w, p, LiteralEvents(h, w, p.byte))
  {
    Pow2Values();
    hide Tree; hide Matched; hide Pow2;
    var base, es := LITERAL + w.coder * CODER_SIZE, LiteralEvents(h, w, p.byte);
    TreeNodes(base, 8, p.byte);
    MatchedNodes(base, 8, w.matchByte, p.byte);
    forall i | 0 <= i < |es| && es[i].choice.Context? ensures Answers(h, w, p, es[i].choice.index) {
      var q := LiteralBit(w.coder, es[i].choice.index - base);
      assert Valid(q) && Asked(h, w, p, q) && Index(q) == es[i].choice.index;
    }
  }

  lemma LengthsAsked(h: History, w: Place, p: Packet, r: bool)
    requires h.Valid() && w.Valid() && Encodable(p) && LengthAsked(p, r)
    ensures AllAsked(h, w, p, LenEvents(LengthBase(r), w.pos, LengthIn(p)))
  {
    Pow2Values();
    hide Tree; hide Pow2; hide AllAsked; hide Asked; hide Index;
    var base, len := LengthBase(r), LengthIn(p);
    LengthIndex(r, w.pos);
    LengthMay(h, w, p, r);
    AskedOne(h, w, p, NotShort(r), len >= 10);
    if len < 10 {
      ShortAsked(h, w, p, r);
      AskedJoin(h, w, p, Ask(base, false), Tree(base + 2 + w.pos * 8, 3, len - 2));
    } else {
      AskedOne(h, w, p, NotMiddle(r), len >= 18);
      if len < 18 {
        MiddleAsked(h, w, p, r);
        AskedJoin(h, w, p, Ask(base, true), Ask(base + 1, false));
        AskedJoin(h, w, p, Ask(base, true) + Ask(base + 1, false), Tree(base + 130 + w.pos * 8, 3, len - 10));
      } else {
        LongAsked(h, w, p, r);
        AskedJoin(h, w, p, Ask(base, true), Ask(base + 1, true));
        AskedJoin(h, w, p, Ask(base, true) + Ask(base + 1, true), Tree(base + 258, 8, len - 18));
      }
    }
  }

  lemma LengthIndex(r: bool, pos: nat)
    requires pos < POS_STATES
    ensures Index(NotShort(r)) == LengthBase(r) && Index(NotMiddle(r)) == LengthBase(r) + 1
  {
  }

  lemma LengthMay(h: History, w: Place, p: Packet, r: bool)
    requires Encodable(p) && LengthAsked(p, r)
    ensures Asked(h, w, p, NotShort(r)) && (LengthIn(p) >= 10 ==> Asked(h, w, p, NotMiddle(r)))
    ensures 2 <= LengthIn(p) <= 273
  {
  }

  lemma ShortAsked(h: History, w: Place, p: Packet, r: bool)
    requires w.Valid() && Encodable(p) && LengthAsked(p, r) && LengthIn(p) < 10
    ensures AllAsked(h, w, p, Tree(LengthBase(r) + 2 + w.pos * 8, 3, LengthIn(p) - 2))
  {
    Pow2Values();
    hide Tree; hide Pow2;
    var base := LengthBase(r) + 2 + w.pos * 8;
    var es := Tree(base, 3, LengthIn(p) - 2);
    TreeNodes(base, 3, LengthIn(p) - 2);
    forall i | 0 <= i < |es| && es[i].choice.Context? ensures Answers(h, w, p, es[i].choice.index) {
      var q := ShortBit(r, w.pos, es[i].choice.index - base);
      assert Valid(q) && Asked(h, w, p, q) && Index(q) == es[i].choice.index;
    }
  }

  lemma MiddleAsked(h: History, w: Place, p: Packet, r: bool)
    requires w.Valid() && Encodable(p) && LengthAsked(p, r) && 10 <= LengthIn(p) < 18
    ensures AllAsked(h, w, p, Tree(LengthBase(r) + 130 + w.pos * 8, 3, LengthIn(p) - 10))
  {
    Pow2Values();
    hide Tree; hide Pow2;
    var base := LengthBase(r) + 130 + w.pos * 8;
    var es := Tree(base, 3, LengthIn(p) - 10);
    TreeNodes(base, 3, LengthIn(p) - 10);
    forall i | 0 <= i < |es| && es[i].choice.Context? ensures Answers(h, w, p, es[i].choice.index) {
      var q := MiddleBit(r, w.pos, es[i].choice.index - base);
      assert Valid(q) && Asked(h, w, p, q) && Index(q) == es[i].choice.index;
    }
  }

  lemma LongAsked(h: History, w: Place, p: Packet, r: bool)
    requires Encodable(p) && LengthAsked(p, r) && LengthIn(p) >= 18
    ensures AllAsked(h, w, p, Tree(LengthBase(r) + 258, 8, LengthIn(p) - 18))
  {
    Pow2Values();
    hide Tree; hide Pow2;
    var base := LengthBase(r) + 258;
    var es := Tree(base, 8, LengthIn(p) - 18);
    TreeNodes(base, 8, LengthIn(p) - 18);
    forall i | 0 <= i < |es| && es[i].choice.Context? ensures Answers(h, w, p, es[i].choice.index) {
      var q := LongBit(r, es[i].choice.index - base);
      assert Valid(q) && Asked(h, w, p, q) && Index(q) == es[i].choice.index;
    }
  }

  lemma SlotAsked(h: History, w: Place, p: Packet)
    requires Encodable(p) && p.Match?
    ensures AllAsked(h, w, p, Tree(DIST_SLOT + DistState(p.len) * 64, 6, Slot(p.dist)))
  {
    Pow2Values();
    hide Tree; hide Pow2;
    var base := DIST_SLOT + DistState(p.len) * 64;
    SlotSmall(p.dist);
    hide Slot;
    var es := Tree(base, 6, Slot(p.dist));
    TreeNodes(base, 6, Slot(p.dist));
    forall i | 0 <= i < |es| && es[i].choice.Context? ensures Answers(h, w, p, es[i].choice.index) {
      var q := SlotBit(DistState(p.len), es[i].choice.index - base);
      assert Valid(q) && Asked(h, w, p, q) && Index(q) == es[i].choice.index;
    }
  }

  lemma FooterAsked(h: History, w: Place, p: Packet, r: nat)
    requires Encodable(p) && p.Match? && p.dist >= 4 && Slot(p.dist) >= 4
    ensures AllAsked(h, w, p, FooterEvents(Slot(p.dist), r))
  {
    Pow2Values();
    hide Reverse; hide Even; hide Pow2; hide Slot; hide SlotBase; hide FooterBits;
    var slot, es := Slot(p.dist), FooterEvents(Slot(p.dist), r);
    if slot < 14 {
      SpecialIndex(slot);
      var base := DIST_SPECIAL + SlotBase(slot) - slot - 1;
      ReverseNodes(base, FooterBits(slot), r);
      forall i | 0 <= i < |es| && es[i].choice.Context? ensures Answers(h, w, p, es[i].choice.index) {
        var q := FooterBit(slot, es[i].choice.index - base);
        assert Valid(q) && Asked(h, w, p, q) && Index(q) == es[i].choice.index;
      }
    } else {
      AlignAsked(h, w, p, r);
    }
  }

  lemma AlignAsked(h: History, w: Place, p: Packet, r: nat)
    requires Encodable(p) && p.Match? && Slot(p.dist) >= 14
    ensures AllAsked(h, w, p, FooterEvents(Slot(p.dist), r))
  {
    Pow2Values();
    hide Reverse; hide Even; hide Pow2; hide Slot; hide SlotBase; hide FooterBits;
    var n := FooterBits(Slot(p.dist));
    assert n >= 4 by { EnoughBits(Slot(p.dist)); }
    var a, b := Even(n - 4, r / 16), Reverse(DIST_ALIGN, 4, r % 16);
    EvenNodes(n - 4, r / 16);
    ReverseNodes(DIST_ALIGN, 4, r % 16);
    forall i | 0 <= i < |b| && b[i].choice.Context? ensures Answers(h, w, p, b[i].choice.index) {
      var q := AlignBit(b[i].choice.index - DIST_ALIGN);
      assert Valid(q) && Asked(h, w, p, q) && Index(q) == b[i].choice.index;
    }
    assert AllAsked(h, w, p, a);
    AskedJoin(h, w, p, a, b);
  }

  lemma EnoughBits(slot: nat)
    requires slot >= 14
    ensures FooterBits(slot) >= 4
  {
  }

  lemma DistanceAsked(h: History, w: Place, p: Packet)
    requires Encodable(p) && p.Match?
    ensures AllAsked(h, w, p, DistEvents(p.len, p.dist))
  {
    hide Tree; hide FooterEvents; hide AllAsked; hide Slot; hide SlotBase; hide FooterBits;
    SlotAsked(h, w, p);
    var slots := Tree(DIST_SLOT + DistState(p.len) * 64, 6, Slot(p.dist));
    assert slots + [] == slots;
    if p.dist >= 4 {
      SlotFooter(p.dist);
      var r := p.dist - SlotBase(Slot(p.dist));
      FooterAsked(h, w, p, r);
      AskedJoin(h, w, p, slots, FooterEvents(Slot(p.dist), r));
    }
  }

  lemma RepeatAsked(h: History, w: Place, p: Packet)
    requires h.Valid() && w.Valid() && Encodable(p) && p.Rep? && p.which > 0
    ensures AllAsked(h, w, p, RepEvents(h.state, p.which))
  {
    hide Answers;
    var s := h.state;
    OneAsked(h, w, p, NotFirst(s));
    OneAsked(h, w, p, NotSecond(s));
    if p.which > 1 {
      OneAsked(h, w, p, NotThird(s));
    }
  }

  lemma OneAsked(h: History, w: Place, p: Packet, q: Question)
    requires Encodable(p) && Valid(q) && Asked(h, w, p, q) && Index(q) >= 0
    ensures Answers(h, w, p, Index(q))
  {
  }

  /** Every probability that a packet uses is that of a question about this packet, in this state
      and at this place. */
  lemma PacketAsks(h: History, w: Place, p: Packet)
    requires h.Valid() && w.Valid() && Encodable(p)
    ensures AllAsked(h, w, p, PacketEvents(h, w, p))
  {
    hide LiteralEvents; hide LenEvents; hide DistEvents; hide RepEvents; hide Answers;
    var s := h.state;
    OneAsked(h, w, p, IsMatch(s, w.pos));
    match p
    case Literal(b) => LiteralAsked(h, w, p);
    case Match(dist, len) =>
      OneAsked(h, w, p, IsRepeat(s));
      LengthsAsked(h, w, p, false);
      DistanceAsked(h, w, p);
    case ShortRep =>
      OneAsked(h, w, p, IsRepeat(s));
      OneAsked(h, w, p, NotFirst(s));
      OneAsked(h, w, p, IsLong(s, w.pos));
    case Rep(which, len) =>
      OneAsked(h, w, p, IsRepeat(s));
      LengthsAsked(h, w, p, true);
      if which == 0 {
        OneAsked(h, w, p, NotFirst(s));
        OneAsked(h, w, p, IsLong(s, w.pos));
      } else {
        RepeatAsked(h, w, p);
      }
  }
}
