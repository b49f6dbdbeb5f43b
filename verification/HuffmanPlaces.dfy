/**
 Where the codes go: the place of each code on a line of 2^15 places and beyond, which places a
 reversed code covers, and how many blocks of 128 places, and so how many entries of secondary
 tables, the long codes need.
 */
module HuffmanPlaces {
  import opened Bits
  import opened Canonical
  import opened HuffmanTable
  import opened HuffmanCodes

  /** Room for the lengths of 286 literal and 30 distance symbols. */
  const WORK_SIZE: nat := 316

  /** s is the i-th symbol of length l, counting from 0. */
  ghost predicate IsNth(lens: seq<nat>, l: nat, i: nat, s: nat) {
    s < |lens| && lens[s] == l && CountUpTo(lens, s, l) == i
  }

  // ----- the reversed codes, in the order the builder meets them

  /** The reversed i-th code of length j. */
  ghost function CodeAt(lens: seq<nat>, j: nat, i: nat): (r: nat)
    requires j >= 1
    ensures r < Pow2(j)
  {
    Rev(j, Low(NextCode(lens, j) + i, j))
  }

  lemma CodeAtNext(lens: seq<nat>, j: nat, i: nat, c: nat)
    requires j >= 1
    ensures Rev(j, Low(Rev(j, CodeAt(lens, j, i)) + c, j)) == CodeAt(lens, j, i + c)
  {
    hide Rev; hide Low; hide NextCode;
    var n := NextCode(lens, j);
    RevRev(j, Low(n + i, j));
    AddLow(n + i, c, j);
    assert n + i + c == n + (i + c);
  }

  lemma CodeAtLonger(lens: seq<nat>, j: nat)
    requires j >= 1
    ensures CodeAt(lens, j, Count(lens, j)) == CodeAt(lens, j + 1, 0)
  {
    hide Rev; hide Low; hide Count;
    LongerCode(j, NextCode(lens, j) + Count(lens, j));
  }

  lemma CodeAtFirst(lens: seq<nat>)
    ensures CodeAt(lens, 1, 0) == 0
  {
  }

  /** Where the i-th code of length j starts, in units of 2^-15. */
  ghost function PosAt(lens: seq<nat>, j: nat, i: nat): nat
    requires 1 <= j <= MAX_LENGTH
  {
    MulMono(0, i, Pow2(MAX_LENGTH - j));
    End(lens, j - 1) + i * Pow2(MAX_LENGTH - j)
  }

  lemma PosAtEnds(lens: seq<nat>, j: nat, i: nat)
    requires 1 <= j <= MAX_LENGTH
    ensures PosAt(lens, j, 0) == End(lens, j - 1) && PosAt(lens, j, Count(lens, j)) == End(lens, j)
    ensures PosAt(lens, j, i + 1) == PosAt(lens, j, i) + Pow2(MAX_LENGTH - j)
  {
    MulDist(i, 1, Pow2(MAX_LENGTH - j));
  }

  /** Under the Kraft inequality nothing wraps: the builder's code is the canonical one. */
  lemma CodeAtIsCode(lens: seq<nat>, j: nat, i: nat, s: nat)
    requires 1 <= j <= MAX_LENGTH && ValidLengths(lens) && Kraft(lens) && IsNth(lens, j, i, s)
    ensures CodeAt(lens, j, i) == Rev(j, Code(lens, s))
    ensures Start(lens, s) == PosAt(lens, j, i)
  {
    hide Rev; hide Low; hide NextCode; hide End; hide CountUpTo; hide Kraft; hide Pow2;
    CodeFits(lens, s);
    StartIsEndPlusRank(lens, s);
  }

  /** In every set the i-th code of length j takes the places from that of its symbol on. */
  lemma StartIsPos(lens: seq<nat>, j: nat, i: nat, s: nat)
    requires 1 <= j <= MAX_LENGTH && IsNth(lens, j, i, s)
    ensures Start(lens, s) == PosAt(lens, j, i)
  {
    hide NextCode; hide End; hide CountUpTo; hide Pow2; hide Start;
    StartIsEndPlusRank(lens, s);
  }

  ghost predicate Codable(lens: seq<nat>) {
    ValidLengths(lens) && |lens| <= WORK_SIZE
  }

  lemma CountFits(lens: seq<nat>, j: nat)
    requires 1 <= j <= MAX_LENGTH && Kraft(lens)
    ensures Count(lens, j) <= Pow2(j)
  {
    hide Count;
    var p := Pow2(MAX_LENGTH - j);
    assert End(lens, j) == End(lens, j - 1) + Count(lens, j) * p;
    hide Pow2;
    EndMono(lens, j, MAX_LENGTH);
    Pow2Add(j, MAX_LENGTH - j);
    if Count(lens, j) > Pow2(j) {
      MulMono(Pow2(j) + 1, Count(lens, j), p);
      MulDist(Pow2(j), 1, p);
    }
  }

  lemma FitsCount(lens: seq<nat>, j: nat)
    requires 1 <= j <= MAX_LENGTH && Fits(lens)
    ensures Count(lens, j) <= Pow2(j)
  {
    hide CountUpTo; hide End; hide Pow2;
    if Kraft(lens) {
      CountFits(lens, j);
    } else if j == 1 {
      OneBit();
    } else {
      FirstHalf(lens, j, 0);
      EndMono(lens, j, MAX_LENGTH);
      Halves();
      EndSplit(lens, j);
      hide Fits; hide PosAt;
      BelowHalves(Count(lens, j), j);
    }
  }

  /** Codes of one length that start behind the first half take at most as much as there is. */
  lemma BelowHalves(c: nat, j: nat)
    requires 1 <= j <= MAX_LENGTH && c * Pow2(MAX_LENGTH - j) <= 2 * Pow2(14)
    ensures c <= Pow2(j)
  {
    hide Pow2;
    Pow2Add(j, MAX_LENGTH - j);
    Halves();
    var p := Pow2(MAX_LENGTH - j);
    if c > Pow2(j) {
      MulMono(Pow2(j) + 1, c, p);
      MulDist(Pow2(j), 1, p);
    }
  }

  lemma EndSplit(lens: seq<nat>, j: nat)
    requires 1 <= j <= MAX_LENGTH
    ensures End(lens, j) == PosAt(lens, j, 0) + Count(lens, j) * Pow2(MAX_LENGTH - j)
  {
    hide Pow2; hide Count;
  }

  // ----- the places that a code covers

  lemma PosIsCode(lens: seq<nat>, j: nat, i: nat)
    requires 1 <= j <= MAX_LENGTH
    ensures PosAt(lens, j, i) == (NextCode(lens, j) + i) * Pow2(MAX_LENGTH - j)
  {
    hide Pow2; hide NextCode; hide End;
    NextCodeIsEnd(lens, j);
    MulDist(NextCode(lens, j), i, Pow2(MAX_LENGTH - j));
  }

  /** A code that does not wrap around covers the places from its own on. */
  lemma PlainSpan(j: nat, c: nat, v: nat)
    requires 1 <= j <= MAX_LENGTH && c < Pow2(j)
    ensures v % Pow2(j) == Rev(j, c) <==> InInterval(Rev(MAX_LENGTH, v), c * Pow2(MAX_LENGTH - j), Pow2(MAX_LENGTH - j))
  {
    hide Pow2; hide Rev;
    MatchReversed(MAX_LENGTH, j, v, c);
    QuotientIsInterval(Rev(MAX_LENGTH, v), Pow2(MAX_LENGTH - j), c);
  }

  /** The codes that are stored where a set of lengths fits. */
  ghost predicate Placed(lens: seq<nat>, j: nat, i: nat)
    requires 1 <= j <= MAX_LENGTH
  {
    i < Count(lens, j) && !(Shifted(lens) && j == 1 && i == 0)
  }

  lemma PosBounds(lens: seq<nat>, j: nat, i: nat)
    requires 1 <= j <= MAX_LENGTH && Fits(lens) && Placed(lens, j, i)
    ensures var pos, w := PosAt(lens, j, i), Pow2(MAX_LENGTH - j);
            if Shifted(lens) then Pow2(14) <= pos && pos + w <= 3 * Pow2(14) else pos + w <= Pow2(15)
  {
    hide Pow2; hide Count;
    PosAtEnds(lens, j, i);
    MulMono(i + 1, Count(lens, j), Pow2(MAX_LENGTH - j));
    EndMono(lens, j, MAX_LENGTH);
    if Shifted(lens) {
      FirstHalf(lens, j, i);
    }
  }

  /** Everything but the code of symbol 0 comes behind the first half. */
  lemma FirstHalf(lens: seq<nat>, j: nat, i: nat)
    requires 1 <= j <= MAX_LENGTH && |lens| > 0 && lens[0] == 1 && (j > 1 || i > 0)
    ensures PosAt(lens, j, i) >= Pow2(14) && End(lens, 1) >= Pow2(14) && Count(lens, 1) >= 1
  {
    hide Pow2;
    CountMono(lens, 0, |lens|, 1);
    hide CountUpTo;
    MulMono(1, Count(lens, 1), Pow2(14));
    OneBitCodes(lens);
    if j > 1 {
      hide End;
      EndMono(lens, 1, j - 1);
      MulMono(0, i, Pow2(MAX_LENGTH - j));
    } else {
      MulMono(1, i, Pow2(14));
    }
  }

  lemma OneBitCodes(lens: seq<nat>)
    ensures End(lens, 1) == Count(lens, 1) * Pow2(14)
  {
    hide Pow2; hide Count;
    assert End(lens, 0) == 0;
  }

  lemma CodeSpans(lens: seq<nat>, j: nat, i: nat)
    requires 1 <= j <= MAX_LENGTH && Fits(lens) && Placed(lens, j, i)
    ensures Spans(lens, j, CodeAt(lens, j, i), PosAt(lens, j, i))
  {
    hide Pow2; hide Rev; hide Fits; hide Shifted; hide NextCode; hide Low; hide PosAt;
    var c, w := NextCode(lens, j) + i, Pow2(MAX_LENGTH - j);
    PosIsCode(lens, j, i);
    PosBounds(lens, j, i);
    Halves();
    forall v: nat
      ensures v % Pow2(j) == CodeAt(lens, j, i) <==> InInterval(Place(lens, v), PosAt(lens, j, i), w)
    {
      CodeSpansAt(lens, j, c, v, PosAt(lens, j, i));
    }
  }

  lemma Halves()
    ensures Pow2(15) == 2 * Pow2(14)
  {
  }

  lemma CodeSpansAt(lens: seq<nat>, j: nat, c: nat, v: nat, pos: nat)
    requires 1 <= j <= MAX_LENGTH && pos == c * Pow2(MAX_LENGTH - j)
    requires var w := Pow2(MAX_LENGTH - j);
             if Shifted(lens) then Pow2(14) <= pos && pos + w <= 3 * Pow2(14) else pos + w <= Pow2(15)
    ensures v % Pow2(j) == Rev(j, Low(c, j)) <==> InInterval(Line(lens, Rev(MAX_LENGTH, v)), pos, Pow2(MAX_LENGTH - j))
  {
    hide Pow2; hide Rev; hide Shifted;
    var p, w, q := Pow2(j), Pow2(MAX_LENGTH - j), Rev(MAX_LENGTH, v);
    Halves();
    Pow2Add(j, MAX_LENGTH - j);
    PlainSpan(j, Low(c, j), v);
    if c < p {
      MulMono(c + 1, p, w);
      MulDist(c, 1, w);
    } else {
      MulMono(p, c, w);
      if c >= 2 * p { MulMono(2 * p, c, w); MulAssoc(2, p, w); }
      DivModUnique(c, p, 1, c - p);
      MulDist(p, c - p, w);
    }
  }

  // ----- the owners of the places, and what the next bits mean

  lemma {:induction false} NthSymbol(lens: seq<nat>, l: nat, i: nat, n: nat) returns (s: nat)
    requires n <= |lens| && i < CountUpTo(lens, n, l)
    ensures IsNth(lens, l, i, s)
  {
    if i == CountUpTo(lens, n - 1, l) {
      s := n - 1;
    } else {
      s := NthSymbol(lens, l, i, n - 1);
    }
  }

  /** Every place below the end of the codes has an owner. */
  lemma {:induction false} PlaceOwned(lens: seq<nat>, x: nat, j: nat) returns (s: nat)
    requires j <= MAX_LENGTH && x < End(lens, j)
    ensures Owns(lens, s, x)
  {
    if x < End(lens, j - 1) {
      s := PlaceOwned(lens, x, j - 1);
    } else {
      var d, w := x - End(lens, j - 1), Pow2(MAX_LENGTH - j);
      EndSplit(lens, j);
      PosAtEnds(lens, j, 0);
      hide Pow2; hide CountUpTo; hide End; hide Start;
      QuotientNonNegative(d, w);
      var i := d / w;
      QuotientIsInterval(d, w, i);
      DivBound(d, w, Count(lens, j));
      s := NthSymbol(lens, j, i, |lens|);
      StartIsPos(lens, j, i, s);
    }
  }

  lemma OwnedBelow(lens: seq<nat>, s: nat, x: nat)
    requires Owns(lens, s, x)
    ensures x < End(lens, MAX_LENGTH)
  {
    hide Pow2; hide Start; hide End; hide CountUpTo;
    StartIsEndPlusRank(lens, s);
    EndMono(lens, lens[s], MAX_LENGTH);
  }

  /** A place behind the codes whose block has a secondary table: the last block of the codes, if
      that is not full and there are long ones. */
  ghost predicate InLastBlock(lens: seq<nat>, x: nat) {
    End(lens, 8) < End(lens, MAX_LENGTH) && x / 128 < (End(lens, MAX_LENGTH) + 127) / 128
  }

  /** What the next bits v are read as: the symbol that owns their place, and the length of its
      code; bits that are no code as symbol 0, of eight bits in a secondary table and of one bit
      elsewhere. */
  ghost function Meaning(lens: seq<nat>, v: nat): (nat, nat) {
    var x := Place(lens, v);
    if exists s: nat :: Owns(lens, s, x) then
      var s: nat :| Owns(lens, s, x); (s, lens[s])
    else
      (0, if InLastBlock(lens, x) then 8 else 1)
  }

  /** The table reads all bits as they are meant. */
  ghost predicate Means(t: seq<nat>, lens: seq<nat>)
    requires |t| == TABLE_SIZE
  {
    forall v: nat {:trigger Lookup(t, v)} :: Lookup(t, v) == Meaning(lens, v)
  }

  lemma MeaningOwned(lens: seq<nat>, v: nat, s: nat)
    requires Owns(lens, s, Place(lens, v))
    ensures Meaning(lens, v) == (s, lens[s])
  {
    hide Place; hide Start; hide Pow2;
    var u: nat :| Owns(lens, u, Place(lens, v)) && Meaning(lens, v) == (u, lens[u]);
    OwnerUnique(lens, s, u, Place(lens, v));
  }

  /** Bits are no code if and only if their place is behind the codes. */
  lemma MeaningUnowned(lens: seq<nat>, v: nat)
    ensures (exists s: nat :: Owns(lens, s, Place(lens, v))) <==> Place(lens, v) < End(lens, MAX_LENGTH)
    ensures Place(lens, v) >= End(lens, MAX_LENGTH) ==>
              Meaning(lens, v) == (0, if InLastBlock(lens, Place(lens, v)) then 8 else 1)
  {
    hide Place; hide Owns; hide InLastBlock;
    var x := Place(lens, v);
    if x < End(lens, MAX_LENGTH) {
      var s := PlaceOwned(lens, x, MAX_LENGTH);
    } else if exists s: nat :: Owns(lens, s, x) {
      var s: nat :| Owns(lens, s, x);
      OwnedBelow(lens, s, x);
    }
  }

  /** Only fifteen bits matter. */
  lemma MeaningLow(lens: seq<nat>, v: nat, v': nat)
    requires v % Pow2(MAX_LENGTH) == v' % Pow2(MAX_LENGTH)
    ensures Meaning(lens, v) == Meaning(lens, v')
  {
    hide Rev; hide Pow2; hide Line; hide Owns;
    RevLow(MAX_LENGTH, v);
    RevLow(MAX_LENGTH, v');
  }

  /** Under the Kraft inequality a table that reads all bits as meant decodes every code. */
  lemma MeansDecodes(t: seq<nat>, lens: seq<nat>)
    requires |t| == TABLE_SIZE && ValidLengths(lens) && Kraft(lens) && Means(t, lens)
    ensures Decodes(t, lens)
  {
    hide Lookup; hide Meaning; hide Matches; hide Kraft; hide Owns; hide Place;
    forall v: nat, s: nat | s < |lens| && lens[s] >= 1 && Matches(lens, s, v)
      ensures Lookup(t, v) == (s, lens[s])
    {
      OwnerMatches(lens, s, v);
      MeaningOwned(lens, v, s);
    }
  }

  // ----- the place that is met again

  /** The number of the first place, in halves, whose entry is not mistaken for an empty one. */
  ghost function Mark(lens: seq<nat>): (m: nat)
    ensures m <= 1
  {
    if |lens| > 0 && lens[0] == 1 then 1 else 0
  }

  ghost function MarkPlace(lens: seq<nat>): nat {
    Mark(lens) * Pow2(14)
  }

  /** Where the line comes back to that place. */
  ghost function Limit(lens: seq<nat>): nat {
    Pow2(15) + MarkPlace(lens)
  }

  /** Both places in units of a code of length j. */
  lemma MarkUnits(lens: seq<nat>, j: nat) returns (h: nat, n: nat)
    requires 1 <= j <= MAX_LENGTH
    ensures h == Mark(lens) * Pow2(j - 1) < Pow2(j) && n == Pow2(j) + h
    ensures MarkPlace(lens) == h * Pow2(MAX_LENGTH - j) && Limit(lens) == n * Pow2(MAX_LENGTH - j)
  {
    hide Pow2; hide Mark;
    Pow2Add(j, MAX_LENGTH - j);
    Pow2Add(j - 1, MAX_LENGTH - j);
    Twice(j);
    var m, w := Mark(lens), Pow2(MAX_LENGTH - j);
    MulMono(0, m, Pow2(j - 1));
    h := m * Pow2(j - 1);
    n := Pow2(j) + h;
    MulMono(m, 1, Pow2(j - 1));
    MulAssoc(m, Pow2(j - 1), w);
    MulDist(Pow2(j), h, w);
  }

  lemma Twice(j: nat)
    requires j >= 1
    ensures Pow2(j) == 2 * Pow2(j - 1)
  {
  }

  /** Multiples of a width are at least that width apart. */
  lemma WholeSteps(c: nat, n: nat, w: nat)
    requires c * w < n * w
    ensures c * w + w <= n * w
  {
    if c >= n { MulMono(n, c, w); }
    MulMono(c + 1, n, w);
    MulDist(c, 1, w);
  }

  /** At both places the reversed code is the mark. */
  lemma CodeAtMark(lens: seq<nat>, j: nat, i: nat)
    requires 1 <= j <= MAX_LENGTH && (PosAt(lens, j, i) == MarkPlace(lens) || PosAt(lens, j, i) == Limit(lens))
    ensures CodeAt(lens, j, i) == Mark(lens)
  {
    hide Pow2; hide Rev; hide NextCode; hide PosAt; hide Mark; hide MarkPlace; hide Limit;
    var c, w := NextCode(lens, j) + i, Pow2(MAX_LENGTH - j);
    PosIsCode(lens, j, i);
    var h, n := MarkUnits(lens, j);
    if PosAt(lens, j, i) == MarkPlace(lens) {
      SameFactor(c, h, w);
    } else {
      SameFactor(c, n, w);
      LowWraps(h, j);
    }
    RevTop(j, Mark(lens));
  }

  lemma LowWraps(h: nat, j: nat)
    requires h < Pow2(j)
    ensures Low(Pow2(j) + h, j) == h
  {
    hide Pow2;
    DivModUnique(Pow2(j) + h, Pow2(j), 1, h);
  }

  lemma SameFactor(a: nat, b: nat, w: nat)
    requires w > 0 && a * w == b * w
    ensures a == b
  {
    if a < b { MulMono(a + 1, b, w); MulDist(a, 1, w); }
    if b < a { MulMono(b + 1, a, w); MulDist(b, 1, w); }
  }

  lemma RevTop(j: nat, m: nat)
    requires j >= 1 && m <= 1
    ensures Rev(j, m * Pow2(j - 1)) == m
  {
    RevCons(j - 1, m, 0);
    RevZero(j - 1);
  }

  lemma {:induction false} RevZero(n: nat)
    ensures Rev(n, 0) == 0
  {
    if n > 0 {
      RevZero(n - 1);
    }
  }

  /** A code that does not start at the limit does not cross it. */
  lemma StepToLimit(lens: seq<nat>, j: nat, i: nat)
    requires 1 <= j <= MAX_LENGTH && PosAt(lens, j, i) < Limit(lens)
    ensures PosAt(lens, j, i) + Pow2(MAX_LENGTH - j) <= Limit(lens)
  {
    hide Pow2; hide NextCode; hide PosAt; hide Mark; hide MarkPlace; hide Limit;
    PosIsCode(lens, j, i);
    var h, n := MarkUnits(lens, j);
    WholeSteps(NextCode(lens, j) + i, n, Pow2(MAX_LENGTH - j));
  }

  lemma StepToMark(lens: seq<nat>, j: nat, i: nat)
    requires 1 <= j <= MAX_LENGTH && PosAt(lens, j, i) < MarkPlace(lens)
    ensures PosAt(lens, j, i) + Pow2(MAX_LENGTH - j) <= MarkPlace(lens)
  {
    hide Pow2; hide NextCode; hide PosAt; hide Mark; hide MarkPlace; hide Limit;
    PosIsCode(lens, j, i);
    var h, n := MarkUnits(lens, j);
    WholeSteps(NextCode(lens, j) + i, h, Pow2(MAX_LENGTH - j));
  }

  // ----- how many places the long codes need

  /** How many of the first n symbols have a length from 9 to j. */
  ghost function LongCount(lens: seq<nat>, n: nat, j: nat): nat
    requires n <= |lens| && j >= 8
  {
    if j == 8 then 0 else LongCount(lens, n, j - 1) + CountUpTo(lens, n, j)
  }

  lemma {:induction false} LongCountNext(lens: seq<nat>, n: nat, j: nat)
    requires n < |lens| && j >= 8
    ensures LongCount(lens, n + 1, j) == LongCount(lens, n, j) + if 9 <= lens[n] <= j then 1 else 0
    decreases j
  {
    if j > 8 {
      LongCountNext(lens, n, j - 1);
    }
  }

  lemma {:induction false} LongCountNone(lens: seq<nat>, j: nat)
    requires j >= 8
    ensures LongCount(lens, 0, j) == 0
  {
    if j > 8 {
      LongCountNone(lens, j - 1);
    }
  }

  lemma {:induction false} LongCountBound(lens: seq<nat>, n: nat, j: nat)
    requires n <= |lens| && j >= 8
    ensures LongCount(lens, n, j) <= n
    decreases n
  {
    if n == 0 {
      LongCountNone(lens, j);
    } else {
      LongCountNext(lens, n - 1, j);
      LongCountBound(lens, n - 1, j);
    }
  }

  lemma {:induction false} LongPlaces(lens: seq<nat>, j: nat)
    requires 8 <= j <= MAX_LENGTH
    ensures End(lens, j) <= End(lens, 8) + LongCount(lens, |lens|, j) * 64
  {
    hide *;
    if j > 8 {
      LongPlaces(lens, j - 1);
      LongStep(lens, j);
    } else {
      NoLong(lens);
    }
  }

  lemma NoLong(lens: seq<nat>)
    ensures LongCount(lens, |lens|, 8) == 0
  {
  }

  lemma LongStep(lens: seq<nat>, j: nat)
    requires 9 <= j <= MAX_LENGTH
    ensures End(lens, j) <= End(lens, j - 1) + Count(lens, j) * 64
    ensures LongCount(lens, |lens|, j) == LongCount(lens, |lens|, j - 1) + Count(lens, j)
  {
    hide Pow2; hide CountUpTo;
    SixBits(MAX_LENGTH - j);
    MulMono(Pow2(MAX_LENGTH - j), 64, Count(lens, j));
  }

  lemma SixBits(n: nat)
    requires n <= 6
    ensures Pow2(n) <= 64
  {
    Pow2Mono(n, 6);
    Pow2Values();
  }

  /** With no short code behind the mark, the long ones do not come near the limit. */
  lemma FewLong(lens: seq<nat>)
    requires |lens| <= WORK_SIZE && End(lens, 8) <= MarkPlace(lens)
    ensures End(lens, MAX_LENGTH) <= Limit(lens)
  {
    hide End;
    LongPlaces(lens, MAX_LENGTH);
    LongCountBound(lens, |lens|, MAX_LENGTH);
    Pow2Values();
  }

  // ----- blocks

  /** The blocks from here on hold codes longer than j. */
  ghost function Edge(lens: seq<nat>, j: nat): nat
    requires j <= MAX_LENGTH
  {
    if End(lens, j) < End(lens, MAX_LENGTH) then End(lens, j) / 128 else (End(lens, MAX_LENGTH) + 127) / 128
  }

  /** The first block that has no secondary table when the longer codes and the first i codes of
      length j have theirs. */
  ghost function Reach(lens: seq<nat>, j: nat, i: nat): nat
    requires 9 <= j <= MAX_LENGTH
  {
    var e, b := Edge(lens, j), (PosAt(lens, j, i) + 127) / 128;
    if i == 0 then Edge(lens, j - 1) else if b < e then b else e
  }

  lemma EdgeMono(lens: seq<nat>, j: nat)
    requires 1 <= j <= MAX_LENGTH
    ensures Edge(lens, j - 1) <= Edge(lens, j) <= Edge(lens, MAX_LENGTH)
    ensures Count(lens, j) == 0 ==> Edge(lens, j - 1) == Edge(lens, j)
    ensures Count(lens, j) > 0 ==> Edge(lens, j - 1) == End(lens, j - 1) / 128
  {
    PosAtEnds(lens, j, 0);
    hide Pow2; hide Count; hide PosAt;
    EndMono(lens, j - 1, j);
    EndMono(lens, j, MAX_LENGTH);
    if Count(lens, j) > 0 {
      EndGrows(lens, j);
    } else {
      SkipsEnd(lens, j);
    }
  }

  lemma EndGrows(lens: seq<nat>, j: nat)
    requires 1 <= j <= MAX_LENGTH && Count(lens, j) > 0
    ensures End(lens, j - 1) < End(lens, j)
  {
    hide Pow2; hide Count;
    MulMono(1, Count(lens, j), Pow2(MAX_LENGTH - j));
  }

  lemma SkipsEnd(lens: seq<nat>, j: nat)
    requires 1 <= j <= MAX_LENGTH && Count(lens, j) == 0
    ensures End(lens, j - 1) == End(lens, j)
  {
  }

  lemma ReachEnds(lens: seq<nat>, j: nat)
    requires 9 <= j <= MAX_LENGTH
    ensures Reach(lens, j, 0) == Edge(lens, j - 1) && Reach(lens, j, Count(lens, j)) == Edge(lens, j)
  {
    hide Pow2; hide Count; hide PosAt;
    EdgeMono(lens, j);
    PosAtEnds(lens, j, 0);
    EndMono(lens, j, MAX_LENGTH);
  }

  /** A long code lies in one block. */
  lemma InOneBlock(pos: nat, w: nat, n: nat)
    requires w > 0 && w * n == 128 && pos % w == 0
    ensures pos % 128 + w <= 128
  {
    DivDiv(pos, w, n);
    var x := (pos / w) % n;
    MulMono(x + 1, n, w);
    MulDist(x, 1, w);
  }

  lemma CodeInOneBlock(lens: seq<nat>, j: nat, i: nat)
    requires 9 <= j <= MAX_LENGTH
    ensures PosAt(lens, j, i) % 128 + Pow2(MAX_LENGTH - j) <= 128
  {
    Pow2Add(MAX_LENGTH - j, j - 8);
    Pow2Values();
    hide Pow2; hide NextCode; hide PosAt;
    PosIsCode(lens, j, i);
    DivModUnique(PosAt(lens, j, i), Pow2(MAX_LENGTH - j), NextCode(lens, j) + i, 0);
    InOneBlock(PosAt(lens, j, i), Pow2(MAX_LENGTH - j), Pow2(j - 8));
  }

  /** The block of the i-th code of length j has a table already, or it is the next one. */
  ghost predicate HasTable(lens: seq<nat>, j: nat, i: nat, b: nat)
    requires 9 <= j <= MAX_LENGTH
  {
    Edge(lens, j - 1) <= b < Reach(lens, j, i) || Edge(lens, j) <= b < Edge(lens, MAX_LENGTH)
  }

  lemma ReachStep(lens: seq<nat>, j: nat, i: nat)
    requires 9 <= j <= MAX_LENGTH && i < Count(lens, j)
    ensures var b := PosAt(lens, j, i) / 128;
            && Edge(lens, j - 1) <= b < Edge(lens, MAX_LENGTH)
            && (HasTable(lens, j, i, b) ==> Reach(lens, j, i + 1) == Reach(lens, j, i))
            && (!HasTable(lens, j, i, b) ==> b == Reach(lens, j, i) < Edge(lens, j) && Reach(lens, j, i + 1) == b + 1)
  {
    EdgeMono(lens, j);
    PosAtEnds(lens, j, i);
    PosInside(lens, j, i);
    CodeInOneBlock(lens, j, i);
    EndMono(lens, j, MAX_LENGTH);
    hide Pow2; hide Count; hide End; hide PosAt;
    var pos, w := PosAt(lens, j, i), Pow2(MAX_LENGTH - j);
    BlockNumbers(pos, w, End(lens, j - 1));
    BlockNumbers(pos, w, pos);
    assert pos / 128 < (End(lens, MAX_LENGTH) + 127) / 128;
  }

  lemma PosInside(lens: seq<nat>, j: nat, i: nat)
    requires 1 <= j <= MAX_LENGTH && i < Count(lens, j)
    ensures End(lens, j - 1) <= PosAt(lens, j, i) && PosAt(lens, j, i) + Pow2(MAX_LENGTH - j) <= End(lens, j)
    ensures i == 0 ==> PosAt(lens, j, i) == End(lens, j - 1)
  {
    hide Pow2; hide Count;
    MulMono(0, i, Pow2(MAX_LENGTH - j));
    MulMono(i + 1, Count(lens, j), Pow2(MAX_LENGTH - j));
    MulDist(i, 1, Pow2(MAX_LENGTH - j));
  }

  lemma BlockNumbers(pos: nat, w: nat, e: nat)
    requires w > 0 && pos % 128 + w <= 128 && e <= pos
    ensures (pos + w + 127) / 128 == pos / 128 + 1 && e / 128 <= pos / 128
    ensures pos / 128 <= (pos + 127) / 128 <= pos / 128 + 1
  {
  }

  // ----- entries

  /** The entries of secondary tables that the codes of length j and more take. */
  ghost function Used(lens: seq<nat>, j: nat): nat
    requires 9 <= j <= MAX_LENGTH + 1
    decreases MAX_LENGTH + 1 - j
  {
    if j == MAX_LENGTH + 1 then 0
    else
      EdgeMono(lens, j);
      MulMono(0, Edge(lens, j) - Edge(lens, j - 1), Pow2(j - 8));
      Used(lens, j + 1) + (Edge(lens, j) - Edge(lens, j - 1)) * Pow2(j - 8)
  }

  /** The entries taken when the longer codes and the first i codes of length j have tables. */
  ghost function Spent(lens: seq<nat>, j: nat, i: nat): int
    requires 9 <= j <= MAX_LENGTH
  {
    Used(lens, j + 1) + (Reach(lens, j, i) - Edge(lens, j - 1)) * Pow2(j - 8)
  }

  /** The last table of length j is opened below entry 512. */
  ghost predicate RoomAt(lens: seq<nat>, j: nat)
    requires 9 <= j <= MAX_LENGTH
  {
    Edge(lens, j - 1) < Edge(lens, j) ==> Used(lens, j) < 512 + Pow2(j - 8)
  }

  /** The sets of lengths that the secondary tables have room for: at the lengths at which
      tables are opened, the entries up to then are fewer than 512 before the last table. */
  ghost predicate Room(lens: seq<nat>) {
    forall j :: 9 <= j <= MAX_LENGTH ==> RoomAt(lens, j)
  }

  ghost predicate RoomSoFar(lens: seq<nat>, j: nat, i: nat)
    requires 9 <= j <= MAX_LENGTH
  {
    && (forall l :: j < l <= MAX_LENGTH ==> RoomAt(lens, l))
    && (Edge(lens, j - 1) < Reach(lens, j, i) ==> Spent(lens, j, i) < 512 + Pow2(j - 8))
  }

  lemma SpentStep(lens: seq<nat>, j: nat, i: nat)
    requires 9 <= j <= MAX_LENGTH && i < Count(lens, j)
    ensures var b := PosAt(lens, j, i) / 128;
            && (HasTable(lens, j, i, b) ==> Spent(lens, j, i + 1) == Spent(lens, j, i))
            && (HasTable(lens, j, i, b) && RoomSoFar(lens, j, i) ==> RoomSoFar(lens, j, i + 1))
            && (!HasTable(lens, j, i, b) ==> Spent(lens, j, i + 1) == Spent(lens, j, i) + Pow2(j - 8))
            && (!HasTable(lens, j, i, b) && Spent(lens, j, i) < 512 && RoomSoFar(lens, j, i) ==>
                  RoomSoFar(lens, j, i + 1))
            && (!HasTable(lens, j, i, b) && Spent(lens, j, i) >= 512 ==> !Room(lens))
  {
    hide Pow2; hide Count; hide PosAt; hide Edge; hide Reach; hide HasTable; hide RoomAt;
    ReachStep(lens, j, i);
    var b, e, p := PosAt(lens, j, i) / 128, Edge(lens, j - 1), Pow2(j - 8);
    if !HasTable(lens, j, i, b) {
      MulDist(b - e, 1, p);
      if Spent(lens, j, i) >= 512 {
        MulMono(b + 1 - e, Edge(lens, j) - e, p);
        FullAt(lens, j);
      }
    }
  }

  lemma FullAt(lens: seq<nat>, j: nat)
    requires 9 <= j <= MAX_LENGTH && Edge(lens, j - 1) < Edge(lens, j) && Used(lens, j) >= 512 + Pow2(j - 8)
    ensures !RoomAt(lens, j)
  {
  }

  lemma SpentEnds(lens: seq<nat>, j: nat)
    requires 9 <= j <= MAX_LENGTH
    ensures Spent(lens, j, 0) == Used(lens, j + 1) && Spent(lens, j, Count(lens, j)) == Used(lens, j)
    ensures RoomSoFar(lens, j, Count(lens, j)) ==> forall l :: j <= l <= MAX_LENGTH ==> RoomAt(lens, l)
    ensures (forall l :: j < l <= MAX_LENGTH ==> RoomAt(lens, l)) ==> RoomSoFar(lens, j, 0)
  {
    hide Pow2; hide Count; hide PosAt; hide Edge; hide Reach;
    ReachEnds(lens, j);
    EdgeMono(lens, j);
  }
}
