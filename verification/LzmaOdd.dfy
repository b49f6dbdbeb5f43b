/**
 A stream of packets in which the code reaches the range.  The decisions of two equal matches at
 distance 4097 are followed by the numbers of the range coder: the range is odd before the sixth
 direct bit of the second distance.
 */
module LzmaOdd {
  import opened Bits
  import opened MatchCopy
  import opened LzmaRange
  import opened LzmaPackets
  import opened LzmaStream
  import opened LzmaRun
  import opened LzmaChunk

  // ----- the range alone

  function Asked(i: nat, bit: bool): Event {
    Event(Context(i), bit)
  }

  const Half: Event := Event(Fair, false)

  function Scale(r: nat): nat {
    if r < TOP then r * 256 else r
  }

  /** The range after a decision with probability p. */
  function NextRange(r: nat, e: Event, p: nat): int {
    if e.choice.Fair? then Scale(r) / 2
    else if e.bit then Scale(r) - Scale(r) / ONE * p
    else Scale(r) / ONE * p
  }

  ghost predicate Touched(es: seq<Event>, n: nat, i: nat)
    requires n <= |es|
  {
    exists k :: 0 <= k < n && es[k].choice == Context(i)
  }

  /** No probability is used twice. */
  ghost predicate Distinct(es: seq<Event>) {
    forall k, l :: 0 <= k < l < |es| && es[k].choice.Context? ==> es[k].choice != es[l].choice
  }

  ghost predicate Adapted(before: seq<nat>, after: seq<nat>, es: seq<Event>, n: nat)
    requires Probabilities(before) && AllKnown(es, before) && n <= |es|
  {
    && |after| == |before|
    && (forall k :: 0 <= k < n && es[k].choice.Context? ==>
          after[es[k].choice.index] == Adapt(before[es[k].choice.index], es[k].bit))
    && (forall i :: 0 <= i < |before| && !Touched(es, n, i) ==> after[i] == before[i])
  }

  lemma {:induction false} EncodeSnoc(iv: Interval, es: seq<Event>, e: Event)
    requires Good(iv) && AllKnown(es, iv.probs) && Known(e.choice, iv.probs)
    ensures AllKnown(es + [e], iv.probs) && Encode(iv, es + [e]) == Narrow(Encode(iv, es), e)
    decreases |es|
  {
    hide Good; hide Narrow;
    var all := es + [e];
    if es == [] {
      NarrowGood(iv, e);
      assert all[0] == e && all[1..] == [];
      assert Encode(Narrow(iv, e), []) == Narrow(iv, e);
    } else {
      assert es[0] in es;
      NarrowGood(iv, es[0]);
      assert all[0] == es[0] && all[1..] == es[1..] + [e];
      EncodeSnoc(Narrow(iv, es[0]), es[1..], e);
    }
  }

  lemma {:induction false} EncodeJoin(iv: Interval, a: seq<Event>, b: seq<Event>)
    requires Good(iv) && AllKnown(a, iv.probs) && AllKnown(b, iv.probs)
    ensures AllKnown(a + b, iv.probs) && Encode(iv, a + b) == Encode(Encode(iv, a), b)
    decreases |a|
  {
    hide Good; hide Narrow;
    KnownJoin(a, b, iv.probs);
    if a == [] {
      assert a + b == b;
    } else {
      assert a[0] in a;
      NarrowGood(iv, a[0]);
      assert (a + b)[0] == a[0] && (a + b)[1..] == a[1..] + b;
      EncodeJoin(Narrow(iv, a[0]), a[1..], b);
    }
  }

  lemma NarrowRange(iv: Interval, e: Event, p: nat)
    requires Good(iv) && Known(e.choice, iv.probs) && (e.choice.Context? ==> iv.probs[e.choice.index] == p)
    ensures Narrow(iv, e).range == NextRange(iv.range, e, p)
    ensures Narrow(iv, e).probs == Learn(iv.probs, e)
  {
    hide Pow256; hide Learn;
    ScaledGood(iv);
  }

  /** The range after the first n of some decisions, from the range r; p gives the probabilities. */
  function RangeUpTo(r: nat, es: seq<Event>, ps: seq<nat>, n: nat): int
    requires n <= |es| == |ps|
  {
    if n == 0 then r
    else
      var before := RangeUpTo(r, es, ps, n - 1);
      if before < 0 then before else NextRange(before, es[n - 1], ps[n - 1])
  }

  /** These are the probabilities of the decisions. */
  ghost predicate Asks(probs: seq<nat>, es: seq<Event>, ps: seq<nat>) {
    && |ps| == |es|
    && forall k :: 0 <= k < |es| && es[k].choice.Context? ==>
         es[k].choice.index < |probs| && probs[es[k].choice.index] == ps[k]
  }

  /** The range of an interval can be followed without the rest of it. */
  lemma {:induction false} FollowRange(iv: Interval, es: seq<Event>, ps: seq<nat>, n: nat)
    requires Good(iv) && AllKnown(es, iv.probs) && Distinct(es) && Asks(iv.probs, es, ps) && n <= |es|
    ensures AllKnown(es[..n], iv.probs) && Encode(iv, es[..n]).range == RangeUpTo(iv.range, es, ps, n)
    ensures Adapted(iv.probs, Encode(iv, es[..n]).probs, es, n)
    decreases n
  {
    hide Narrow; hide NextRange; hide Adapt; hide Learn;
    if n == 0 {
      assert es[..0] == [] && Encode(iv, []) == iv;
    } else {
      FollowRange(iv, es, ps, n - 1);
      var e, before := es[n - 1], Encode(iv, es[..n - 1]);
      assert es[..n] == es[..n - 1] + [e];
      hide Encode;
      if e.choice.Context? {
        Untouched(es, n - 1);
      }
      EncodeSnoc(iv, es[..n - 1], e);
      NarrowRange(before, e, ps[n - 1]);
      AdaptedNext(iv.probs, before.probs, es, n);
    }
  }

  lemma Untouched(es: seq<Event>, n: nat)
    requires Distinct(es) && n < |es| && es[n].choice.Context?
    ensures !Touched(es, n, es[n].choice.index)
  {
  }

  lemma AdaptedNext(probs: seq<nat>, before: seq<nat>, es: seq<Event>, n: nat)
    requires Probabilities(probs) && Probabilities(before) && AllKnown(es, probs) && 1 <= n <= |es| && Distinct(es)
    requires Adapted(probs, before, es, n - 1) && Known(es[n - 1].choice, before)
    ensures Adapted(probs, Learn(before, es[n - 1]), es, n)
  {
    hide Adapt;
    var e := es[n - 1];
    if e.choice.Context? {
      Untouched(es, n - 1);
    }
    forall i | 0 <= i < |probs| && !Touched(es, n, i) ensures Learn(before, e)[i] == probs[i] {
      assert !Touched(es, n - 1, i);
      assert es[n - 1].choice != Context(i);
    }
  }

  // ----- the numbers

  /** The decisions of the first match. */
  const FIRST: seq<Event> :=
    [Asked(0, true), Asked(192, false), Asked(818, false), Asked(821, false), Asked(822, false), Asked(824, false),
     Asked(433, false), Asked(434, true), Asked(437, true), Asked(443, false), Asked(454, false), Asked(476, false),
     Half, Half, Half, Half, Half, Half,
     Half, Asked(803, false), Asked(804, false), Asked(806, false), Asked(810, false)]

  /** The decisions of the second match before its sixth direct bit. */
  const SECOND: seq<Event> :=
    [Asked(112, true), Asked(199, false), Asked(818, false), Asked(821, false), Asked(822, false), Asked(824, false),
     Asked(433, false), Asked(434, true), Asked(437, true), Asked(443, false), Asked(454, false), Asked(476, false),
     Half, Half, Half, Half, Half]

  const FIRST_ODDS: seq<nat> :=
    [1024, 1024, 1024, 1024, 1024, 1024, 1024, 1024, 1024, 1024, 1024, 1024,
     1024, 1024, 1024, 1024, 1024, 1024, 1024, 1024, 1024, 1024, 1024]

  const SECOND_ODDS: seq<nat> :=
    [1024, 1024, 1056, 1056, 1056, 1056, 1056, 992, 992, 1056, 1056, 1056, 1024, 1024, 1024, 1024, 1024]

  lemma FirstRange1()
    ensures RangeUpTo(0xffffffff, FIRST, FIRST_ODDS, 6) == 0x4000000
  {
    assert RangeUpTo(0xffffffff, FIRST, FIRST_ODDS, 1) == 0x800003ff;
    assert RangeUpTo(0xffffffff, FIRST, FIRST_ODDS, 2) == 0x40000000;
    assert RangeUpTo(0xffffffff, FIRST, FIRST_ODDS, 3) == 0x20000000;
    assert RangeUpTo(0xffffffff, FIRST, FIRST_ODDS, 4) == 0x10000000;
    assert RangeUpTo(0xffffffff, FIRST, FIRST_ODDS, 5) == 0x8000000;
    assert RangeUpTo(0xffffffff, FIRST, FIRST_ODDS, 6) == 0x4000000;
  }

  lemma FirstRange2()
    ensures RangeUpTo(0xffffffff, FIRST, FIRST_ODDS, 12) == 0x10000000
  {
    FirstRange1();
    assert RangeUpTo(0xffffffff, FIRST, FIRST_ODDS, 7) == 0x2000000;
    assert RangeUpTo(0xffffffff, FIRST, FIRST_ODDS, 8) == 0x1000000;
    assert RangeUpTo(0xffffffff, FIRST, FIRST_ODDS, 9) == 0x800000;
    assert RangeUpTo(0xffffffff, FIRST, FIRST_ODDS, 10) == 0x40000000;
    assert RangeUpTo(0xffffffff, FIRST, FIRST_ODDS, 11) == 0x20000000;
    assert RangeUpTo(0xffffffff, FIRST, FIRST_ODDS, 12) == 0x10000000;
  }

  lemma FirstRange3()
    ensures RangeUpTo(0xffffffff, FIRST, FIRST_ODDS, 18) == 0x40000000
  {
    FirstRange2();
    assert RangeUpTo(0xffffffff, FIRST, FIRST_ODDS, 13) == 0x8000000;
    assert RangeUpTo(0xffffffff, FIRST, FIRST_ODDS, 14) == 0x4000000;
    assert RangeUpTo(0xffffffff, FIRST, FIRST_ODDS, 15) == 0x2000000;
    assert RangeUpTo(0xffffffff, FIRST, FIRST_ODDS, 16) == 0x1000000;
    assert RangeUpTo(0xffffffff, FIRST, FIRST_ODDS, 17) == 0x800000;
    assert RangeUpTo(0xffffffff, FIRST, FIRST_ODDS, 18) == 0x40000000;
  }

  lemma FirstRange4()
    ensures RangeUpTo(0xffffffff, FIRST, FIRST_ODDS, 23) == 0x2000000
  {
    FirstRange3();
    assert RangeUpTo(0xffffffff, FIRST, FIRST_ODDS, 19) == 0x20000000;
    assert RangeUpTo(0xffffffff, FIRST, FIRST_ODDS, 20) == 0x10000000;
    assert RangeUpTo(0xffffffff, FIRST, FIRST_ODDS, 21) == 0x8000000;
    assert RangeUpTo(0xffffffff, FIRST, FIRST_ODDS, 22) == 0x4000000;
    assert RangeUpTo(0xffffffff, FIRST, FIRST_ODDS, 23) == 0x2000000;
  }

  lemma SecondRange1()
    ensures RangeUpTo(0x2000000, SECOND, SECOND_ODDS, 6) == 0x90c4080
  {
    assert RangeUpTo(0x2000000, SECOND, SECOND_ODDS, 1) == 0x1000000;
    assert RangeUpTo(0x2000000, SECOND, SECOND_ODDS, 2) == 0x800000;
    assert RangeUpTo(0x2000000, SECOND, SECOND_ODDS, 3) == 0x42000000;
    assert RangeUpTo(0x2000000, SECOND, SECOND_ODDS, 4) == 0x22080000;
    assert RangeUpTo(0x2000000, SECOND, SECOND_ODDS, 5) == 0x118c2000;
    assert RangeUpTo(0x2000000, SECOND, SECOND_ODDS, 6) == 0x90c4080;
  }

  lemma SecondRange2()
    ensures RangeUpTo(0x2000000, SECOND, SECOND_ODDS, 12) == 0x2b87abe0
  {
    SecondRange1();
    assert RangeUpTo(0x2000000, SECOND, SECOND_ODDS, 7) == 0x4aa5100;
    assert RangeUpTo(0x2000000, SECOND, SECOND_ODDS, 8) == 0x267d240;
    assert RangeUpTo(0x2000000, SECOND, SECOND_ODDS, 9) == 0x13d8980;
    assert RangeUpTo(0x2000000, SECOND, SECOND_ODDS, 10) == 0xa3ba20;
    assert RangeUpTo(0x2000000, SECOND, SECOND_ODDS, 11) == 0x546bf880;
    assert RangeUpTo(0x2000000, SECOND, SECOND_ODDS, 12) == 0x2b87abe0;
  }

  lemma SecondRange3()
    ensures RangeUpTo(0x2000000, SECOND, SECOND_ODDS, 17) == 0x15c3d5f
  {
    SecondRange2();
    assert RangeUpTo(0x2000000, SECOND, SECOND_ODDS, 13) == 0x15c3d5f0;
    assert RangeUpTo(0x2000000, SECOND, SECOND_ODDS, 14) == 0xae1eaf8;
    assert RangeUpTo(0x2000000, SECOND, SECOND_ODDS, 15) == 0x570f57c;
    assert RangeUpTo(0x2000000, SECOND, SECOND_ODDS, 16) == 0x2b87abe;
    assert RangeUpTo(0x2000000, SECOND, SECOND_ODDS, 17) == 0x15c3d5f;
  }

  lemma FirstAsked()
    ensures Distinct(FIRST) && Asks(Fresh(), FIRST, FIRST_ODDS) && AllKnown(FIRST, Fresh())
  {
  }

  lemma SecondDistinct()
    ensures Distinct(SECOND)
  {
  }

  lemma AdaptedAt(probs: seq<nat>, k: nat, i: nat, bit: bool)
    requires Probabilities(Fresh()) && AllKnown(FIRST, Fresh()) && Adapted(Fresh(), probs, FIRST, |FIRST|)
    requires k < |FIRST| && FIRST[k] == Asked(i, bit) && i < TOTAL
    ensures i < |probs| && probs[i] == if bit then 992 else 1056
  {
    hide FIRST;
    assert Fresh()[i] == 1024;
  }

  lemma NotAdapted(probs: seq<nat>, i: nat)
    requires Probabilities(Fresh()) && AllKnown(FIRST, Fresh()) && Adapted(Fresh(), probs, FIRST, |FIRST|)
    requires i < TOTAL && !Touched(FIRST, |FIRST|, i)
    ensures i < |probs| && probs[i] == 1024
  {
    hide FIRST;
  }

  /** The probabilities that the second match meets. */
  ghost predicate MetAgain(probs: seq<nat>) {
    && |probs| == TOTAL
    && probs[818] == 1056 && probs[821] == 1056 && probs[822] == 1056 && probs[824] == 1056
    && probs[433] == 1056 && probs[434] == 992 && probs[437] == 992 && probs[443] == 1056
    && probs[454] == 1056 && probs[476] == 1056 && probs[112] == 1024 && probs[199] == 1024
  }

  lemma SecondAsked(probs: seq<nat>)
    requires Probabilities(Fresh()) && AllKnown(FIRST, Fresh()) && Adapted(Fresh(), probs, FIRST, |FIRST|)
    ensures Asks(probs, SECOND, SECOND_ODDS) && AllKnown(SECOND, probs)
  {
    hide *;
    SecondMet(probs);
    MetAsked(probs);
    AsksKnown(probs, SECOND, SECOND_ODDS);
  }

  lemma MetAsked(probs: seq<nat>)
    requires MetAgain(probs)
    ensures Asks(probs, SECOND, SECOND_ODDS)
  {
  }

  lemma NotTouched()
    ensures !Touched(FIRST, |FIRST|, 112) && !Touched(FIRST, |FIRST|, 199)
  {
  }

  lemma SameLength(probs: seq<nat>)
    requires Probabilities(Fresh()) && AllKnown(FIRST, Fresh()) && Adapted(Fresh(), probs, FIRST, |FIRST|)
    ensures |probs| == TOTAL
  {
  }

  lemma SecondMet(probs: seq<nat>)
    requires Probabilities(Fresh()) && AllKnown(FIRST, Fresh()) && Adapted(Fresh(), probs, FIRST, |FIRST|)
    ensures MetAgain(probs)
  {
    hide Adapted; hide Probabilities; hide AllKnown; hide Fresh; hide Touched;
    SameLength(probs);
    NotTouched();
    AdaptedAt(probs, 2, 818, false);
    AdaptedAt(probs, 3, 821, false);
    AdaptedAt(probs, 4, 822, false);
    AdaptedAt(probs, 5, 824, false);
    AdaptedAt(probs, 6, 433, false);
    AdaptedAt(probs, 7, 434, true);
    AdaptedAt(probs, 8, 437, true);
    AdaptedAt(probs, 9, 443, false);
    AdaptedAt(probs, 10, 454, false);
    AdaptedAt(probs, 11, 476, false);
    NotAdapted(probs, 112);
    NotAdapted(probs, 199);
  }

  lemma AsksKnown(probs: seq<nat>, es: seq<Event>, ps: seq<nat>)
    requires Asks(probs, es, ps)
    ensures AllKnown(es, probs)
  {
  }

  /** The range is odd, and not scaled, behind these decisions. */
  lemma OddRange()
    ensures Probabilities(Fresh()) && Good(Whole(Fresh())) && AllKnown(FIRST + SECOND, Fresh())
    ensures Scaled(Encode(Whole(Fresh()), FIRST + SECOND)).range == 0x15c3d5f
  {
    hide Fresh; hide RangeUpTo; hide Encode; hide Adapted; hide Distinct; hide Asks; hide AllKnown; hide Good;
    hide FIRST; hide SECOND; hide FIRST_ODDS; hide SECOND_ODDS; hide Probabilities;
    FreshProbabilities();
    WholeGood(Fresh());
    FirstAsked();
    Lengths();
    FollowRange(Whole(Fresh()), FIRST, FIRST_ODDS, |FIRST|);
    assert FIRST[..|FIRST|] == FIRST;
    FirstRange4();
    var iv := Encode(Whole(Fresh()), FIRST);
    SecondDistinct();
    SecondAsked(iv.probs);
    SameLengthKnown(SECOND, iv.probs, Fresh());
    FollowRange(iv, SECOND, SECOND_ODDS, |SECOND|);
    assert SECOND[..|SECOND|] == SECOND;
    SecondRange3();
    EncodeJoin(Whole(Fresh()), FIRST, SECOND);
  }

  lemma Lengths()
    ensures |FIRST| == 23 && |SECOND| == 17 && |FIRST_ODDS| == 23 && |SECOND_ODDS| == 17
  {
  }

  lemma SameLengthKnown(es: seq<Event>, a: seq<nat>, b: seq<nat>)
    requires AllKnown(es, a) && |a| == |b|
    ensures AllKnown(es, b)
  {
  }

  // ----- the packets

  lemma SlotTwentyFour()
    ensures Slot(4096) == 24 && SlotBase(24) == 4096 && FooterBits(24) == 11
  {
    Pow2Values();
    assert Pow2(10) == 1024 && Pow2(11) == 2048 && Pow2(12) == 4096 && Pow2(13) == 8192;
    LogIs(4096, 12);
  }

  lemma LengthTwo()
    ensures LenEvents(MATCH_LEN, 0, 2) == [Asked(818, false), Asked(821, false), Asked(822, false), Asked(824, false)]
  {
    Pow2Values();
    hide Pow2;
    assert Tree(820, 1, 0) == Tree(820, 0, 0) + Ask(821, false);
    assert Tree(820, 2, 0) == Tree(820, 1, 0) + Ask(822, false);
    assert Tree(820, 3, 0) == Tree(820, 2, 0) + Ask(824, false);
  }

  lemma SlotTree()
    ensures Tree(DIST_SLOT, 6, 24) == [Asked(433, false), Asked(434, true), Asked(437, true), Asked(443, false),
                                       Asked(454, false), Asked(476, false)]
  {
    Pow2Values();
    hide Pow2;
    assert Tree(DIST_SLOT, 1, 0) == Tree(DIST_SLOT, 0, 0) + Ask(433, false);
    assert Tree(DIST_SLOT, 2, 1) == Tree(DIST_SLOT, 1, 0) + Ask(434, true);
    assert Tree(DIST_SLOT, 3, 3) == Tree(DIST_SLOT, 2, 1) + Ask(437, true);
    assert Tree(DIST_SLOT, 4, 6) == Tree(DIST_SLOT, 3, 3) + Ask(443, false);
    assert Tree(DIST_SLOT, 5, 12) == Tree(DIST_SLOT, 4, 6) + Ask(454, false);
    assert Tree(DIST_SLOT, 6, 24) == Tree(DIST_SLOT, 5, 12) + Ask(476, false);
  }

  lemma SevenHalves()
    ensures Even(7, 0) == [Half, Half, Half, Half, Half, Half, Half]
  {
    assert Even(1, 0) == [Half];
    assert Even(2, 0) == [Half, Half];
    assert Even(3, 0) == [Half, Half, Half];
    assert Even(4, 0) == [Half, Half, Half, Half];
    assert Even(5, 0) == [Half, Half, Half, Half, Half];
    assert Even(6, 0) == [Half, Half, Half, Half, Half, Half];
  }

  lemma AlignTree()
    ensures Reverse(DIST_ALIGN, 4, 0) == [Asked(803, false), Asked(804, false), Asked(806, false), Asked(810, false)]
  {
    Pow2Values();
    ReverseZero(0);
    ReverseZero(1);
    ReverseZero(2);
    ReverseZero(3);
    hide Pow2; hide Rev;
    assert Reverse(DIST_ALIGN, 1, 0) == Reverse(DIST_ALIGN, 0, 0) + Ask(803, false);
    assert Reverse(DIST_ALIGN, 2, 0) == Reverse(DIST_ALIGN, 1, 0) + Ask(804, false);
    assert Reverse(DIST_ALIGN, 3, 0) == Reverse(DIST_ALIGN, 2, 0) + Ask(806, false);
    assert Reverse(DIST_ALIGN, 4, 0) == Reverse(DIST_ALIGN, 3, 0) + Ask(810, false);
  }

  lemma {:induction false} ReverseZero(n: nat)
    ensures Rev(n, 0) == 0 && 0 / Pow2(n) % 2 == 0
  {
    if n > 0 {
      ReverseZero(n - 1);
    }
  }

  lemma DistanceEvents()
    ensures DistEvents(2, 4096)
         == Tree(DIST_SLOT, 6, 24) + (Even(7, 0) + Reverse(DIST_ALIGN, 4, 0))
  {
    hide Tree; hide Even; hide Reverse; hide Pow2; hide Slot; hide SlotBase; hide FooterBits;
    SlotTwentyFour();
  }

  /** The decisions of a match of length 2 at distance 4097. */
  lemma MatchEvents(h: History, w: Place)
    requires w.pos == 0
    ensures PacketEvents(h, w, Match(4096, 2))
         == [Asked(h.state * 16, true), Asked(192 + h.state, false)]
            + (LenEvents(MATCH_LEN, 0, 2) + (Tree(DIST_SLOT, 6, 24) + (Even(7, 0) + Reverse(DIST_ALIGN, 4, 0))))
  {
    hide Tree; hide Even; hide Reverse; hide LenEvents; hide DistEvents;
    DistanceEvents();
  }

  lemma FirstEvents(h: History, w: Place)
    requires w.pos == 0 && h.state == 0
    ensures PacketEvents(h, w, Match(4096, 2)) == FIRST
  {
    hide Tree; hide Even; hide Reverse; hide LenEvents; hide PacketEvents;
    MatchEvents(h, w);
    LengthTwo();
    SlotTree();
    SevenHalves();
    AlignTree();
  }

  lemma SecondEvents(h: History, w: Place)
    requires w.pos == 0 && h.state == 7
    ensures |PacketEvents(h, w, Match(4096, 2))| == 23 && PacketEvents(h, w, Match(4096, 2))[..17] == SECOND
    ensures PacketEvents(h, w, Match(4096, 2))[17] == Half
  {
    hide Tree; hide Even; hide Reverse; hide LenEvents; hide PacketEvents;
    MatchEvents(h, w);
    LengthTwo();
    SlotTree();
    SevenHalves();
    AlignTree();
  }

  /** With enough text before it, a chunk can start with two matches at distance 4097; there is an
      input that makes the decoder read the first of them and the second up to its sixth direct
      bit, and there the code is the last unit of an odd range. */
  lemma PacketsMeetLastUnit(props: Properties, dict: nat, s: Written)
    requires props.Valid() && props.pb == 0 && Sound(dict, s) && s.h == History(0, 0, 0, 0, 0) && |s.out| - dict > 4096
    ensures Playable(dict, s, [Match(4096, 2)]) && Probabilities(Fresh()) && Good(Whole(Fresh()))
    ensures var first, t := StreamEvents(props, dict, s, [Match(4096, 2)]), Play(dict, s, [Match(4096, 2)]);
            var second := PacketEvents(t.h, PlaceOf(props, dict, t), Match(4096, 2));
            && |second| == 23 && second[17].choice == Fair && AllKnown(first + second[..17], Fresh())
            && exists input :: MeetsLastUnit(input, Fresh(), first + second[..17])
  {
    hide Fresh; hide PacketEvents; hide RefCopy; hide Good; hide Probabilities; hide FIRST; hide SECOND; hide MeetsLastUnit;
    var p := Match(4096, 2);
    var t := Write(dict, s, p);
    assert [p][1..] == [];
    assert Playable(dict, t, []) && Play(dict, t, []) == t && StreamEvents(props, dict, t, []) == [];
    NoPosition(props, dict, s);
    NoPosition(props, dict, t);
    FirstEvents(s.h, PlaceOf(props, dict, s));
    SecondEvents(t.h, PlaceOf(props, dict, t));
    assert StreamEvents(props, dict, s, [p]) == FIRST + [] == FIRST;
    OddRange();
    LastUnitExactly(Fresh(), FIRST + SECOND);
  }

  lemma NoPosition(props: Properties, dict: nat, s: Written)
    requires props.Valid() && props.pb == 0 && Sound(dict, s)
    ensures PlaceOf(props, dict, s).pos == 0
  {
    assert Pow2(0) == 1;
  }
}
