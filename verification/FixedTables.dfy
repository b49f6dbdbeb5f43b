/**
 The tables for the fixed codes, which a generator makes with the table builder.
 */
module FixedTables {
  import opened Bits
  import opened Canonical
  import opened HuffmanTable
  import opened HuffmanPlaces
  import opened HuffmanBuild
  import opened HuffmanSets
  import opened InflateSpec
  import opened Inflate

  // ----- the table of section 3.2.6 of RFC 1951

  /** The number of bits of a literal or length symbol. */
  function TableLength(s: nat): nat {
    if s <= 143 then 8 else if s <= 255 then 9 else if s <= 279 then 7 else 8
  }

  /** Its code, first bit highest. */
  function TableCode(s: nat): nat
    requires s < 288
  {
    if s <= 143 then 0x30 + s
    else if s <= 255 then 0x190 + (s - 144)
    else if s <= 279 then s - 256
    else 0xc0 + (s - 280)
  }

  lemma LiteralLength(s: nat)
    requires s < 288
    ensures |FixedLiterals()| == 288 && FixedLiterals()[s] == TableLength(s)
  {
    var a, b, c := Many(144, 8), Many(112, 9), Many(24, 7);
    assert |a + b + c| == 280;
  }

  /** How many of the first n symbols have each length. */
  lemma {:induction false} LiteralRanks(n: nat)
    requires n <= 288
    ensures |FixedLiterals()| == 288
    ensures CountUpTo(FixedLiterals(), n, 7) == if n <= 256 then 0 else if n <= 280 then n - 256 else 24
    ensures CountUpTo(FixedLiterals(), n, 8) == if n <= 144 then n else if n <= 280 then 144 else n - 136
    ensures CountUpTo(FixedLiterals(), n, 9) == if n <= 144 then 0 else if n <= 256 then n - 144 else 112
    ensures forall l :: l !in {7, 8, 9} ==> CountUpTo(FixedLiterals(), n, l) == 0
  {
    if n == 0 {
      LiteralLength(0);
      hide FixedLiterals;
    } else {
      LiteralLength(n - 1);
      hide FixedLiterals;
      LiteralRanks(n - 1);
    }
  }

  lemma LiteralCounts(l: nat)
    ensures Count(FixedLiterals(), l) == if l == 7 then 24 else if l == 8 then 152 else if l == 9 then 112 else 0
  {
    hide FixedLiterals; hide CountUpTo;
    LiteralRanks(288);
  }

  lemma {:induction false} FirstCodeZero(lens: seq<nat>, j: nat)
    requires j >= 1 && forall l :: 1 <= l < j ==> Count(lens, l) == 0
    ensures NextCode(lens, j) == 0
  {
    hide CountUpTo;
    if j > 1 {
      FirstCodeZero(lens, j - 1);
    }
  }

  /** The canonical code of the fixed lengths is the one of the table. */
  lemma FixedLiteralCode(s: nat)
    requires s < 288
    ensures |FixedLiterals()| == 288 && FixedLiterals()[s] == TableLength(s)
    ensures Code(FixedLiterals(), s) == TableCode(s) < Pow2(TableLength(s))
  {
    var lens := FixedLiterals();
    Pow2Values();
    assert Pow2(9) == 512;
    LiteralLength(s);
    LiteralRanks(s);
    forall l: nat
      ensures Count(lens, l) == if l == 7 then 24 else if l == 8 then 152 else if l == 9 then 112 else 0
    {
      LiteralCounts(l);
    }
    hide CountUpTo; hide Pow2; hide FixedLiterals;
    FirstCodeZero(lens, 7);
    assert NextCode(lens, 8) == 0x30;
    assert NextCode(lens, 9) == 0x190;
  }

  /** Distances have five bits, and their number is their code. */
  lemma FixedDistanceCode(d: nat)
    requires d < 32
    ensures |FixedDistances()| == 32 && FixedDistances()[d] == 5 && Code(FixedDistances(), d) == d < Pow2(5)
  {
    var lens := FixedDistances();
    Pow2Values();
    CountMany(32, 5, d, 5);
    forall l: nat ensures Count(lens, l) == if l == 5 then 32 else 0 {
      CountMany(32, 5, 32, l);
    }
    hide CountUpTo; hide Pow2;
    FirstCodeZero(lens, 5);
  }

  lemma DecodedBy(table: seq<nat>, lens: seq<nat>, s: nat, v: nat)
    requires Usable(table, lens) && Kraft(lens) && s < |lens| && lens[s] >= 1 && Matches(lens, s, v)
    ensures Lookup(table, v) == (s, lens[s])
  {
    hide Matches; hide Kraft; hide Means; hide Lookup;
    MeansDecodes(table, lens);
  }

  lemma TableMatches(s: nat, v: nat)
    requires s < 288 && v % Pow2(TableLength(s)) == Rev(TableLength(s), TableCode(s))
    ensures s < |FixedLiterals()| && FixedLiterals()[s] == TableLength(s) && Matches(FixedLiterals(), s, v)
  {
    hide FixedLiterals; hide Code; hide Pow2; hide Rev; hide TableCode;
    FixedLiteralCode(s);
  }

  /** A table for the fixed literal lengths reads a code of the table, whatever follows it. */
  lemma LiteralRead(table: seq<nat>, s: nat, v: nat)
    requires Usable(table, FixedLiterals()) && s < 288
    requires v % Pow2(TableLength(s)) == Rev(TableLength(s), TableCode(s))
    ensures Lookup(table, v) == (s, TableLength(s))
  {
    hide FixedLiterals; hide Matches; hide Pow2; hide Rev; hide Kraft; hide Means; hide Lookup; hide TableCode;
    hide Usable;
    TableMatches(s, v);
    LiteralRoom();
    DecodedBy(table, FixedLiterals(), s, v);
  }

  lemma DistanceRead(table: seq<nat>, d: nat, v: nat)
    requires Usable(table, FixedDistances()) && d < 32 && v % Pow2(5) == Rev(5, d)
    ensures Lookup(table, v) == (d, 5)
  {
    hide FixedDistances; hide Code; hide Pow2; hide Rev; hide Kraft; hide Means; hide Lookup; hide Usable;
    FixedDistanceCode(d);
    DistanceRoom();
    DecodedBy(table, FixedDistances(), d, v);
  }

  /** Without codes of the lengths in between, the ends do not move. */
  lemma {:induction false} EndStays(lens: seq<nat>, i: nat, j: nat)
    requires i <= j <= MAX_LENGTH && forall l :: i < l <= j ==> Count(lens, l) == 0
    ensures End(lens, j) == End(lens, i)
    decreases j
  {
    hide CountUpTo; hide Pow2; hide End;
    if i < j {
      EndStays(lens, i, j - 1);
      SkipsEnd(lens, j);
    }
  }

  /** The fixed literal code uses all places; its codes of nine bits use the last 56 blocks. */
  lemma LiteralEnds()
    ensures var lens := FixedLiterals();
            && End(lens, 8) == 25600 && forall j :: 9 <= j <= MAX_LENGTH ==> End(lens, j) == 32768
  {
    var lens := FixedLiterals();
    Pow2Values();
    forall l: nat
      ensures Count(lens, l) == if l == 7 then 24 else if l == 8 then 152 else if l == 9 then 112 else 0
    {
      LiteralCounts(l);
    }
    hide CountUpTo; hide Pow2; hide FixedLiterals;
    assert End(lens, 0) == 0;
    EndStays(lens, 0, 6);
    assert End(lens, 7) == End(lens, 6) + Count(lens, 7) * Pow2(8);
    assert End(lens, 8) == End(lens, 7) + Count(lens, 8) * Pow2(7);
    assert End(lens, 9) == End(lens, 8) + Count(lens, 9) * Pow2(6);
    hide End;
    forall j | 9 <= j <= MAX_LENGTH ensures End(lens, j) == 32768 {
      EndStays(lens, 9, j);
    }
  }

  lemma LiteralRoom()
    ensures Kraft(FixedLiterals()) && Room(FixedLiterals()) && Used(FixedLiterals(), 9) == 112
  {
    var lens := FixedLiterals();
    LiteralEnds();
    Powers();
    Pow2Values();
    hide End; hide Pow2; hide FixedLiterals;
    UsedStays(lens, 10);
    assert Edge(lens, 8) == 200 && forall j :: 9 <= j <= MAX_LENGTH ==> Edge(lens, j) == 256;
    hide Edge;
    assert Used(lens, 9) == Used(lens, 10) + (Edge(lens, 9) - Edge(lens, 8)) * Pow2(1);
    hide Used;
    forall j | 9 <= j <= MAX_LENGTH ensures RoomAt(lens, j) {
    }
  }

  lemma {:induction false} UsedStays(lens: seq<nat>, j: nat)
    requires 10 <= j <= MAX_LENGTH + 1 && forall l :: 9 <= l <= MAX_LENGTH ==> Edge(lens, l) == Edge(lens, 9)
    ensures Used(lens, j) == 0
    decreases MAX_LENGTH + 1 - j
  {
    hide Edge; hide Pow2;
    if j <= MAX_LENGTH {
      UsedStays(lens, j + 1);
    }
  }

  lemma DistanceRoom()
    ensures Kraft(FixedDistances()) && Room(FixedDistances()) && Used(FixedDistances(), 9) == 0
  {
    var lens := FixedDistances();
    forall l: nat ensures Count(lens, l) == if l == 5 then 32 else 0 {
      CountMany(32, 5, 32, l);
    }
    Powers();
    Pow2Values();
    hide CountUpTo; hide Pow2; hide FixedDistances;
    assert End(lens, 0) == 0;
    EndStays(lens, 0, 4);
    assert End(lens, 5) == End(lens, 4) + Count(lens, 5) * Pow2(10);
    forall j | 5 <= j <= MAX_LENGTH ensures End(lens, j) == 32768 {
      EndStays(lens, 5, j);
    }
    hide End;
    assert forall j :: 8 <= j <= MAX_LENGTH ==> Edge(lens, j) == 256;
    hide Edge;
    UsedStays(lens, 10);
    assert Used(lens, 9) == Used(lens, 10) + (Edge(lens, 9) - Edge(lens, 8)) * Pow2(1);
    hide Used;
    forall j | 9 <= j <= MAX_LENGTH ensures RoomAt(lens, j) {
    }
  }

  lemma FixedLengths()
    ensures |FixedLiterals()| == 288 && ValidLengths(FixedLiterals())
    ensures |FixedDistances()| == 32 && ValidLengths(FixedDistances())
  {
  }

  /** Both tables read all codes of section 3.2.6, whatever follows them. */
  ghost predicate ReadsFixed(table: seq<nat>, dtable: seq<nat>) {
    && |table| == TABLE_SIZE && |dtable| == TABLE_SIZE
    && (forall s: nat, v: nat :: s < 288 && v % Pow2(TableLength(s)) == Rev(TableLength(s), TableCode(s)) ==>
          Lookup(table, v) == (s, TableLength(s)))
    && (forall d: nat, v: nat :: d < 32 && v % Pow2(5) == Rev(5, d) ==> Lookup(dtable, v) == (d, 5))
  }

  lemma UsableReads(table: seq<nat>, dtable: seq<nat>)
    requires Usable(table, FixedLiterals()) && Usable(dtable, FixedDistances())
    ensures ReadsFixed(table, dtable)
  {
    hide FixedLiterals; hide FixedDistances; hide Pow2; hide Rev; hide Lookup; hide TableCode; hide TableLength;
    hide Means;
    forall s: nat, v: nat | s < 288 && v % Pow2(TableLength(s)) == Rev(TableLength(s), TableCode(s))
      ensures Lookup(table, v) == (s, TableLength(s))
    {
      LiteralRead(table, s, v);
    }
    forall d: nat, v: nat | d < 32 && v % Pow2(5) == Rev(5, d) ensures Lookup(dtable, v) == (d, 5) {
      DistanceRead(dtable, d, v);
    }
  }

  /** The generator: both tables are built, read the fixed codes, and have no entries behind
      those that it prints. */
  method BuildFixed(next: array<nat>, table: array<nat>, dtable: array<nat>) returns (ok: bool)
    requires next.Length == WORK_SIZE && table.Length == TABLE_SIZE && dtable.Length == TABLE_SIZE
    requires next != table && next != dtable && table != dtable
    modifies next, table, dtable
    ensures ok && Usable(table[..], FixedLiterals()) && Usable(dtable[..], FixedDistances())
    ensures ReadsFixed(table[..], dtable[..])
    ensures EmptyFrom(table[..], 0x70) && EmptyFrom(dtable[..], 0)
  {
    FixedLengths();
    LiteralRoom();
    DistanceRoom();
    FitsIf(FixedLiterals());
    FitsIf(FixedDistances());
    hide Kraft; hide Room; hide Used; hide Means; hide Decodes; hide EmptyFrom; hide FixedLiterals; hide FixedDistances;
    hide Fits; hide ValidLengths; hide ReadsFixed;
    var r := BuildTable(FixedLiterals(), next, table);
    if r != Built {
      return false;
    }
    r := BuildTable(FixedDistances(), next, dtable);
    ok := r == Built;
    UsableReads(table[..], dtable[..]);
  }

  lemma FitsIf(lens: seq<nat>)
    requires Kraft(lens)
    ensures Fits(lens)
  {
  }
}
