/**
 Sets of lengths at the borders of what the table builder accepts.
 */
module HuffmanSets {
  import opened Bits
  import opened Canonical
  import opened HuffmanTable
  import opened HuffmanPlaces

  lemma {:induction false} CountJoin(a: seq<nat>, b: seq<nat>, n: nat, l: nat)
    requires n <= |b|
    ensures CountUpTo(a + b, |a| + n, l) == Count(a, l) + CountUpTo(b, n, l)
    decreases n
  {
    if n == 0 {
      CountPrefix(a, b, |a|, l);
    } else {
      CountJoin(a, b, n - 1, l);
    }
  }

  lemma {:induction false} CountPrefix(a: seq<nat>, b: seq<nat>, n: nat, l: nat)
    requires n <= |a|
    ensures CountUpTo(a + b, n, l) == CountUpTo(a, n, l)
  {
    if n > 0 {
      CountPrefix(a, b, n - 1, l);
    }
  }

  lemma {:induction false} CountMany(n: nat, x: nat, k: nat, l: nat)
    requires k <= n
    ensures CountUpTo(Many(n, x), k, l) == if l == x then k else 0
    decreases k
  {
    if k > 0 {
      CountMany(n, x, k - 1, l);
    }
  }

  lemma CountThen(a: seq<nat>, n: nat, x: nat, l: nat)
    ensures Count(a + Many(n, x), l) == Count(a, l) + if l == x then n else 0
  {
    hide CountUpTo;
    CountJoin(a, Many(n, x), n, l);
    CountMany(n, x, n, l);
  }

  // ----- over-subscribed sets

  lemma ThreeCounts(a: nat, b: nat, c: nat, l: nat)
    ensures Count([a, b, c], l) == (if a == l then 1 else 0) + (if b == l then 1 else 0) + if c == l then 1 else 0
  {
    var s := [a, b, c];
    assert CountUpTo(s, 1, l) == CountUpTo(s, 0, l) + if a == l then 1 else 0;
    assert CountUpTo(s, 2, l) == CountUpTo(s, 1, l) + if b == l then 1 else 0;
  }

  /** Two codes of one bit and one of two bits take five quarters of the places. */
  lemma FiveQuarters(lens: seq<nat>, j: nat)
    requires 2 <= j <= MAX_LENGTH
    requires forall l :: 1 <= l <= MAX_LENGTH ==> Count(lens, l) == if l == 1 then 2 else if l == 2 then 1 else 0
    ensures End(lens, j) == 40960
  {
    Powers();
    hide CountUpTo; hide Pow2;
    if j == 2 {
      OneBitCodes(lens);
      assert End(lens, 2) == End(lens, 1) + Count(lens, 2) * Pow2(13);
    } else {
      FiveQuarters(lens, j - 1);
      SkipsEnd(lens, j);
    }
  }

  lemma Powers()
    ensures Pow2(13) == 8192 && Pow2(14) == 16384 && Pow2(15) == 32768
  {
    Pow2Values();
    assert Pow2(13) == 16 * Pow2(9);
  }

  /** This over-subscribed set is accepted: the entry of symbol 0 is taken for an empty one. */
  lemma AcceptedOversubscribed()
    ensures ValidLengths([1, 1, 2]) && !Kraft([1, 1, 2]) && Fits([1, 1, 2]) && Room([1, 1, 2])
  {
    var lens: seq<nat> := [1, 1, 2];
    Powers();
    forall l: nat ensures Count(lens, l) == if l == 1 then 2 else if l == 2 then 1 else 0 {
      ThreeCounts(1, 1, 2, l);
    }
    hide CountUpTo; hide Pow2;
    FiveQuarters(lens, MAX_LENGTH);
    hide End;
    forall j | 9 <= j <= MAX_LENGTH ensures RoomAt(lens, j) {
      EdgeMono(lens, j);
    }
  }

  lemma TwoBits(v: nat)
    ensures Rev(MAX_LENGTH, v) / 8192 == if v % 4 == 0 then 0 else if v % 4 == 2 then 1 else if v % 4 == 1 then 2 else 3
  {
    Powers();
    assert Pow2(2) == 4;
    RevHigh(MAX_LENGTH, 2, v);
    assert Rev(2, 0) == 0 && Rev(2, 1) == 2 && Rev(2, 2) == 1 && Rev(2, 3) == 3;
    hide Rev; hide Pow2;
  }

  lemma OversubscribedStarts()
    ensures var lens: seq<nat> := [1, 1, 2];
            && Shifted(lens) && End(lens, 8) == End(lens, MAX_LENGTH) == 40960
            && Start(lens, 1) == 16384 && Start(lens, 2) == 32768
  {
    var lens: seq<nat> := [1, 1, 2];
    Powers();
    forall l: nat ensures Count(lens, l) == if l == 1 then 2 else if l == 2 then 1 else 0 {
      ThreeCounts(1, 1, 2, l);
    }
    assert CountUpTo(lens, 1, 1) == CountUpTo(lens, 0, 1) + 1;
    assert CountUpTo(lens, 2, 2) == CountUpTo(lens, 1, 2) == CountUpTo(lens, 0, 2);
    hide CountUpTo; hide Pow2; hide Start;
    FiveQuarters(lens, 8);
    FiveQuarters(lens, MAX_LENGTH);
    OneBitCodes(lens);
    assert End(lens, 0) == 0;
    hide End;
    StartIsEndPlusRank(lens, 1);
    StartIsEndPlusRank(lens, 2);
  }

  /** What its table reads: a one is symbol 1 and two zeros are symbol 2.  Symbol 0 has lost its
      code, and is read from the zero of the bits that are no code. */
  lemma OversubscribedMeaning(v: nat)
    ensures Meaning([1, 1, 2], v) == if v % 2 == 1 then (1, 1) else if v % 4 == 0 then (2, 2) else (0, 1)
  {
    var lens: seq<nat> := [1, 1, 2];
    Powers();
    TwoBits(v);
    OversubscribedStarts();
    hide Rev; hide Pow2; hide Start; hide End; hide Shifted; hide Meaning;
    var x := Place(lens, v);
    if v % 2 == 1 {
      assert Owns(lens, 1, x);
      MeaningOwned(lens, v, 1);
    } else if v % 4 == 0 {
      assert Owns(lens, 2, x);
      MeaningOwned(lens, v, 2);
    } else {
      MeaningUnowned(lens, v);
    }
  }

  /** The same lengths in another order are refused. */
  lemma RefusedOversubscribed()
    ensures ValidLengths([2, 1, 1]) && !Fits([2, 1, 1])
  {
    var lens: seq<nat> := [2, 1, 1];
    Powers();
    forall l: nat ensures Count(lens, l) == if l == 1 then 2 else if l == 2 then 1 else 0 {
      ThreeCounts(2, 1, 1, l);
    }
    hide CountUpTo; hide Pow2;
    FiveQuarters(lens, MAX_LENGTH);
  }

  // ----- bits that are no code

  lemma IncompleteEnds(j: nat)
    requires 1 <= j <= MAX_LENGTH
    ensures End([0, 1], j) == 16384
  {
    var lens: seq<nat> := [0, 1];
    forall l: nat ensures Count(lens, l) == if l <= 1 then 1 else 0 {
      assert CountUpTo(lens, 1, l) == CountUpTo(lens, 0, l) + if l == 0 then 1 else 0;
    }
    Powers();
    hide CountUpTo; hide Pow2;
    if j == 1 {
      OneBitCodes(lens);
    } else {
      IncompleteEnds(j - 1);
      SkipsEnd(lens, j);
    }
  }

  /** Symbol 1 has the only code, a zero.  A one is no code, and is read as symbol 0, which has
      none. */
  lemma IncompleteMeaning(v: nat)
    ensures Kraft([0, 1]) && Meaning([0, 1], v) == if v % 2 == 0 then (1, 1) else (0, 1)
  {
    var lens: seq<nat> := [0, 1];
    Powers();
    IncompleteEnds(8);
    IncompleteEnds(MAX_LENGTH);
    HalfOfPlace(v);
    assert Start(lens, 1) == 0;
    hide Rev; hide Pow2; hide Start; hide End; hide Meaning;
    if v % 2 == 0 {
      assert Owns(lens, 1, Place(lens, v));
      MeaningOwned(lens, v, 1);
    } else {
      MeaningUnowned(lens, v);
    }
  }

  // ----- a set without room

  /** Three codes of nine bits, one each of ten to fourteen and 259 of fifteen. */
  function Crowded(): seq<nat> {
    Many(3, 9) + Many(1, 10) + Many(1, 11) + Many(1, 12) + Many(1, 13) + Many(1, 14) + Many(259, 15)
  }

  lemma CrowdedCounts(l: nat)
    ensures Count(Crowded(), l) == if l == 9 then 3 else if 10 <= l <= 14 then 1 else if l == 15 then 259 else 0
  {
    hide CountUpTo; hide Many;
    var s9 := Many(3, 9);
    CountMany(3, 9, 3, l);
    var s10 := s9 + Many(1, 10);
    CountThen(s9, 1, 10, l);
    var s11 := s10 + Many(1, 11);
    CountThen(s10, 1, 11, l);
    var s12 := s11 + Many(1, 12);
    CountThen(s11, 1, 12, l);
    var s13 := s12 + Many(1, 13);
    CountThen(s12, 1, 13, l);
    var s14 := s13 + Many(1, 14);
    CountThen(s13, 1, 14, l);
    CountThen(s14, 259, 15, l);
  }

  lemma {:induction false} NoShort(lens: seq<nat>, j: nat)
    requires j <= 8 && forall l :: 1 <= l <= 8 ==> Count(lens, l) == 0
    ensures End(lens, j) == 0
  {
    hide CountUpTo; hide Pow2;
    if j > 0 {
      NoShort(lens, j - 1);
      SkipsEnd(lens, j);
    }
  }

  lemma CrowdedEnds()
    ensures var lens := Crowded();
            && End(lens, 8) == 0 && End(lens, 9) == 192 && End(lens, 14) == 254 && End(lens, 15) == 513
  {
    var lens := Crowded();
    Pow2Values();
    forall l: nat
      ensures Count(lens, l) == if l == 9 then 3 else if 10 <= l <= 14 then 1 else if l == 15 then 259 else 0
    {
      CrowdedCounts(l);
    }
    hide CountUpTo; hide Pow2; hide Crowded;
    NoShort(lens, 8);
    assert End(lens, 9) == End(lens, 8) + Count(lens, 9) * Pow2(6);
    assert End(lens, 10) == End(lens, 9) + Count(lens, 10) * Pow2(5);
    assert End(lens, 11) == End(lens, 10) + Count(lens, 11) * Pow2(4);
    assert End(lens, 12) == End(lens, 11) + Count(lens, 12) * Pow2(3);
    assert End(lens, 13) == End(lens, 12) + Count(lens, 13) * Pow2(2);
    assert End(lens, 14) == End(lens, 13) + Count(lens, 14) * Pow2(1);
    assert End(lens, 15) == End(lens, 14) + Count(lens, 15) * Pow2(0);
  }

  lemma CrowdedLengths()
    ensures |Crowded()| == 267 && ValidLengths(Crowded())
  {
    var head := Many(3, 9) + Many(1, 10) + Many(1, 11) + Many(1, 12);
    assert forall i :: 0 <= i < |head| ==> head[i] <= 15;
    var tail := Many(1, 13) + Many(1, 14) + Many(259, 15);
    assert forall i :: 0 <= i < |tail| ==> tail[i] <= 15;
    assert Crowded() == head + tail;
  }

  /** The codes of fifteen bits take four tables of 128 entries. */
  lemma CrowdedEdges()
    ensures var lens := Crowded();
            && Edge(lens, 8) == 0 && Edge(lens, 9) == 1 && Edge(lens, 14) == 1 && Edge(lens, 15) == 5
            && Used(lens, 15) == 512
  {
    var lens := Crowded();
    CrowdedEnds();
    Pow2Values();
    hide Crowded; hide End; hide Pow2;
    assert Used(lens, 16) == 0;
  }

  /** The last code of nine bits needs one table more. */
  lemma CrowdedHasNoRoom()
    ensures |Crowded()| <= WORK_SIZE && ValidLengths(Crowded()) && Kraft(Crowded()) && !Room(Crowded())
  {
    hide Crowded; hide End; hide Pow2; hide Edge; hide CountUpTo;
    CrowdedLengths();
    CrowdedEnds();
    CrowdedEdges();
    Powers();
    Pow2Values();
    UsedFrom(Crowded(), 10);
    assert !RoomAt(Crowded(), 9);
  }

  lemma {:induction false} UsedFrom(lens: seq<nat>, j: nat)
    requires 9 <= j <= 15
    ensures Used(lens, j) >= Used(lens, 15)
    decreases 15 - j
  {
    hide Edge; hide Pow2;
    if j < 15 {
      UsedFrom(lens, j + 1);
      EdgeMono(lens, j);
      MulMono(0, Edge(lens, j) - Edge(lens, j - 1), Pow2(j - 8));
    }
  }
}
