/**
 The two-level decoding table: its entries, how a lookup reads it, and what one store
 into it does to every lookup.  An entry is 16 bits: nine of symbol or offset, three
 of length, and a flag for an entry that points to a secondary table.
 */
module HuffmanTable {
  import opened Bits
  import opened Canonical

  const TABLE_SIZE: nat := 1024

  function EntryValue(e: nat): (r: nat)
    ensures r < 512
  {
    e % 512
  }

  function EntryBits(e: nat): (r: nat)
    ensures r < 8
  {
    (e / 512) % 8
  }

  predicate IsSecondary(e: nat) {
    (e / 4096) % 2 == 1
  }

  lemma SecondaryWidth(b: nat)
    requires b < 8
    ensures Pow2(b) <= 128
  {
    Pow2Mono(b, 7);
    Pow2Values();
  }

  /** Where the entry for v lies in the secondary table that entry e points to. */
  function Slot(e: nat, v: nat): (k: nat)
    ensures 256 + EntryValue(e) <= k < 256 + EntryValue(e) + Pow2(EntryBits(e))
    ensures k < TABLE_SIZE
  {
    SecondaryWidth(EntryBits(e));
    256 + EntryValue(e) + (v / 256) % Pow2(EntryBits(e))
  }

  /** The entry that decides v. */
  function Raw(t: seq<nat>, v: nat): nat
    requires |t| == TABLE_SIZE
  {
    var e := t[v % 256];
    if IsSecondary(e) then t[Slot(e, v)] else e
  }

  /** The symbol found for the next bits v, and how many bits it uses. */
  function Lookup(t: seq<nat>, v: nat): (nat, nat)
    requires |t| == TABLE_SIZE
  {
    if IsSecondary(t[v % 256]) then
      (EntryValue(Raw(t, v)), EntryBits(Raw(t, v)) + 8)
    else
      (EntryValue(Raw(t, v)), EntryBits(Raw(t, v)) + 1)
  }

  /** The table decodes the canonical code of lens: whatever follows the code of s in the
      bit buffer, the lookup finds s and uses exactly the bits of its code. */
  ghost predicate Decodes(t: seq<nat>, lens: seq<nat>)
    requires |t| == TABLE_SIZE
  {
    forall v: nat, s: nat {:trigger Matches(lens, s, v)} ::
      s < |lens| && lens[s] >= 1 && Matches(lens, s, v) ==> Lookup(t, v) == (s, lens[s])
  }

  /** The set of lengths is over-subscribed, but symbol 0 has a code of one bit.  Its entry is 0,
      the mark of an empty entry, so that its half of the table can be used again. */
  ghost predicate Shifted(lens: seq<nat>) {
    |lens| > 0 && lens[0] == 1 && !Kraft(lens)
  }

  /** The sets of lengths for which no code meets an entry in use. */
  ghost predicate Fits(lens: seq<nat>) {
    || Kraft(lens)
    || (|lens| > 0 && lens[0] == 1 && Count(lens, 1) <= 2 && End(lens, MAX_LENGTH) <= 3 * Pow2(14))
  }

  /** Where a reversed 15-bit word is used: the first half of the table may be used behind the
      second. */
  ghost function Line(lens: seq<nat>, q: nat): nat {
    if Shifted(lens) && q < Pow2(14) then q + Pow2(15) else q
  }

  /** The place of the next bits v. */
  ghost function Place(lens: seq<nat>, v: nat): nat {
    Line(lens, Rev(MAX_LENGTH, v))
  }

  /** The place is one of the interval of places that the code of s takes. */
  ghost predicate Owns(lens: seq<nat>, s: nat, x: nat) {
    s < |lens| && 1 <= lens[s] <= MAX_LENGTH && InInterval(x, Start(lens, s), Pow2(MAX_LENGTH - lens[s]))
  }

  lemma OwnerUnique(lens: seq<nat>, s: nat, u: nat, x: nat)
    requires Owns(lens, s, x) && Owns(lens, u, x)
    ensures s == u
  {
    hide Pow2; hide Start;
    if lens[s] < lens[u] || (lens[s] == lens[u] && s < u) {
      IntervalsOrdered(lens, s, u);
    } else if s != u {
      IntervalsOrdered(lens, u, s);
    }
  }

  /** Under the Kraft inequality the owner of a place is the symbol whose code comes next. */
  lemma OwnerMatches(lens: seq<nat>, s: nat, v: nat)
    requires s < |lens| && 1 <= lens[s] <= MAX_LENGTH && Kraft(lens)
    ensures Matches(lens, s, v) <==> Owns(lens, s, Place(lens, v))
  {
    hide Rev; hide Pow2; hide Start; hide Kraft; hide Matches;
    MatchesIsInterval(lens, s, v);
  }

  /** The buffers that start with this code are those in an interval of 2^(15 - j) places. */
  ghost predicate Spans(lens: seq<nat>, j: nat, code: nat, pos: nat)
    requires j <= MAX_LENGTH
  {
    forall v: nat {:trigger Place(lens, v)} ::
      v % Pow2(j) == code <==> InInterval(Place(lens, v), pos, Pow2(MAX_LENGTH - j))
  }

  lemma SpansAt(lens: seq<nat>, j: nat, code: nat, pos: nat, v: nat)
    requires j <= MAX_LENGTH && Spans(lens, j, code, pos)
    ensures v % Pow2(j) == code <==> InInterval(Place(lens, v), pos, Pow2(MAX_LENGTH - j))
  {
    hide Place; hide InInterval; hide Pow2;
  }

  /** The reversed 15-bit words whose symbols are in the table: those below lo, those in
      from .. to and those in top .. end. */
  datatype Zone = Zone(lo: nat, from: nat, to: nat, top: nat, end: nat) {
    ghost predicate Has(q: nat) {
      q < lo || from <= q < to || top <= q < end
    }
  }

  ghost predicate Extends(z': Zone, z: Zone, start: nat, width: nat) {
    forall q: nat :: z'.Has(q) <==> z.Has(q) || InInterval(q, start, width)
  }

  ghost predicate Agrees(t: seq<nat>, lens: seq<nat>, z: Zone)
    requires |t| == TABLE_SIZE
  {
    forall v: nat, s: nat {:trigger Owns(lens, s, Place(lens, v))} ::
      Owns(lens, s, Place(lens, v)) && z.Has(Place(lens, v)) ==> Lookup(t, v) == (s, lens[s])
  }

  ghost predicate BlankOutside(t: seq<nat>, lens: seq<nat>, z: Zone)
    requires |t| == TABLE_SIZE
  {
    forall v: nat {:trigger Raw(t, v)} :: !z.Has(Place(lens, v)) ==> Raw(t, v) == 0
  }

  /** Secondary tables lie below used, have at least bits index bits, and do not overlap;
      nothing is stored at or above used. */
  ghost predicate Layout(t: seq<nat>, used: nat, bits: nat)
    requires |t| == TABLE_SIZE
  {
    && (forall p :: 0 <= p < 256 && IsSecondary(t[p]) ==>
          EntryBits(t[p]) >= bits && EntryValue(t[p]) + Pow2(EntryBits(t[p])) <= used)
    && (forall p, q :: 0 <= p < 256 && 0 <= q < 256 && p != q && IsSecondary(t[p]) && IsSecondary(t[q]) ==>
          || EntryValue(t[p]) + Pow2(EntryBits(t[p])) <= EntryValue(t[q])
          || EntryValue(t[q]) + Pow2(EntryBits(t[q])) <= EntryValue(t[p]))
    && (forall k :: 256 + used <= k < TABLE_SIZE ==> t[k] == 0)
  }

  ghost predicate NoSecondary(t: seq<nat>)
    requires |t| == TABLE_SIZE
  {
    forall p :: 0 <= p < 256 ==> !IsSecondary(t[p])
  }

  // ----- one symbol in the primary table

  ghost predicate Congruent(k: nat, step: nat, first: nat)
    requires step > 0
  {
    k % step == first
  }

  /** t' is t with value stored at every k in off .. off + limit that is first modulo step. */
  ghost predicate Strided(t: seq<nat>, t': seq<nat>, off: nat, first: nat, step: nat, limit: nat, value: nat)
    requires step > 0
  {
    |t'| == |t| && forall k :: 0 <= k < |t| ==>
      t'[k] == if off <= k < off + limit && Congruent(k - off, step, first) then value else t[k]
  }

  lemma LowBits(v: nat, j: nat)
    requires j <= 8
    ensures (v % 256) % Pow2(j) == v % Pow2(j)
  {
    Split(v, j, 8 - j);
    Pow2Values();
  }

  lemma EntryFields(s: nat, b: nat, flag: nat)
    requires s < 512 && b < 8 && flag < 2
    ensures EntryValue(s + b * 512 + flag * 4096) == s
    ensures EntryBits(s + b * 512 + flag * 4096) == b
    ensures IsSecondary(s + b * 512 + flag * 4096) <==> flag == 1
  {
  }

  lemma PrimaryLookup(t: seq<nat>, t': seq<nat>, s: nat, j: nat, code: nat, v: nat)
    requires |t| == TABLE_SIZE && NoSecondary(t) && s < 512 && 1 <= j <= 8
    requires Strided(t, t', 0, code, Pow2(j), 256, s + (j - 1) * 512)
    ensures !IsSecondary(t'[v % 256])
    ensures v % Pow2(j) == code ==> Lookup(t', v) == (s, j)
    ensures v % Pow2(j) != code ==> Lookup(t', v) == Lookup(t, v) && Raw(t', v) == Raw(t, v)
  {
    hide Rev; hide Pow2;
    LowBits(v, j);
    EntryFields(s, j - 1, 0);
    assert v % 256 < 256;
  }

  /** Storing one short code keeps the table right and adds that code. */
  lemma PrimaryAgrees(t: seq<nat>, t': seq<nat>, lens: seq<nat>, z: Zone, z': Zone, s: nat, code: nat)
    requires |t| == TABLE_SIZE && NoSecondary(t)
    requires s < |lens| <= 512 && 1 <= lens[s] <= 8 && Spans(lens, lens[s], code, Start(lens, s))
    requires Agrees(t, lens, z)
    requires Extends(z', z, Start(lens, s), Pow2(MAX_LENGTH - lens[s]))
    requires Strided(t, t', 0, code, Pow2(lens[s]), 256, s + (lens[s] - 1) * 512)
    ensures |t'| == TABLE_SIZE && Agrees(t', lens, z')
  {
    hide Pow2; hide Place; hide Lookup; hide Raw; hide Start; hide Spans;
    var j := lens[s];
    forall v: nat, u: nat | Owns(lens, u, Place(lens, v)) && z'.Has(Place(lens, v))
      ensures Lookup(t', v) == (u, lens[u])
    {
      PrimaryLookup(t, t', s, j, code, v);
      SpansAt(lens, j, code, Start(lens, s), v);
      if Owns(lens, s, Place(lens, v)) {
        OwnerUnique(lens, s, u, Place(lens, v));
      }
    }
  }

  /** Storing one short code leaves the rest empty. */
  lemma PrimaryBlank(t: seq<nat>, t': seq<nat>, lens: seq<nat>, z: Zone, z': Zone, s: nat, j: nat, code: nat, pos: nat)
    requires |t| == TABLE_SIZE && NoSecondary(t) && s < 512 && 1 <= j <= 8 && Spans(lens, j, code, pos)
    requires BlankOutside(t, lens, z) && Extends(z', z, pos, Pow2(MAX_LENGTH - j))
    requires Strided(t, t', 0, code, Pow2(j), 256, s + (j - 1) * 512)
    ensures |t'| == TABLE_SIZE && BlankOutside(t', lens, z')
  {
    hide Place; hide Pow2; hide Lookup; hide Raw; hide Spans;
    forall v: nat | !z'.Has(Place(lens, v))
      ensures Raw(t', v) == 0
    {
      PrimaryLookup(t, t', s, j, code, v);
      SpansAt(lens, j, code, pos, v);
      assert Raw(t, v) == 0;
    }
  }

  /** No store of a short code ever meets an entry already in use. */
  lemma PrimaryFree(t: seq<nat>, lens: seq<nat>, z: Zone, j: nat, code: nat, pos: nat, k: nat)
    requires |t| == TABLE_SIZE && NoSecondary(t) && BlankOutside(t, lens, z)
    requires 1 <= j <= 8 && Spans(lens, j, code, pos) && k < 256 && k % Pow2(j) == code
    requires forall q: nat :: InInterval(q, pos, Pow2(MAX_LENGTH - j)) ==> !z.Has(q)
    ensures t[k] == 0
  {
    hide Place; hide Pow2; hide Spans;
    SpansAt(lens, j, code, pos, k);
    assert Raw(t, k) == 0;
  }

  // ----- one symbol in a secondary table

  /** A long code is the primary index followed by the secondary index. */
  lemma SplitMatch(v: nat, j: nat, code: nat)
    requires 8 <= j && code < Pow2(j)
    ensures v % Pow2(j) == code <==> v % 256 == code % 256 && (v / 256) % Pow2(j - 8) == code / 256
    ensures code / 256 < Pow2(j - 8)
  {
    hide Pow2;
    Split(v, 8, j - 8);
    Pow2Values();
    Pow2Add(j - 8, 8);
    DivBound(code, 256, Pow2(j - 8));
    assert code == (code / 256) * 256 + code % 256;
  }

  lemma LowBitsOf(x: nat, small: nat, big: nat)
    requires small <= big
    ensures (x % Pow2(big)) % Pow2(small) == x % Pow2(small)
  {
    Split(x, small, big - small);
  }

  ghost predicate PointsTo(e: nat, base: nat, bits: nat) {
    IsSecondary(e) && EntryValue(e) == base && EntryBits(e) == bits
  }

  /** A lookup through another primary entry is not disturbed. */
  lemma SecondaryMiss(t: seq<nat>, t': seq<nat>, p: nat, base: nat, bits: nat, first: nat, step: nat, value: nat,
      used: nat, least: nat, v: nat)
    requires |t| == TABLE_SIZE && p < 256 && PointsTo(t[p], base, bits) && Layout(t, used, least) && step > 0
    requires Strided(t, t', base + 256, first, step, Pow2(bits), value)
    requires v % 256 != p
    ensures Lookup(t', v) == Lookup(t, v) && Raw(t', v) == Raw(t, v)
  {
    hide Pow2; hide EntryBits; hide EntryValue; hide IsSecondary; hide Congruent;
    var q := v % 256;
    assert t'[q] == t[q];
    if IsSecondary(t[q]) {
      assert t'[Slot(t[q], v)] == t[Slot(t[q], v)];
    }
  }

  /** A lookup through the same primary entry finds the new value where it was stored. */
  lemma SecondaryHit(t: seq<nat>, t': seq<nat>, p: nat, base: nat, bits: nat, first: nat, j: nat, value: nat, v: nat)
    requires |t| == TABLE_SIZE && p < 256 && PointsTo(t[p], base, bits) && j <= bits
    requires Strided(t, t', base + 256, first, Pow2(j), Pow2(bits), value)
    requires v % 256 == p
    ensures IsSecondary(t'[p]) && t'[p] == t[p]
    ensures Raw(t', v) == if (v / 256) % Pow2(j) == first then value else Raw(t, v)
  {
    hide Pow2; hide EntryBits; hide EntryValue; hide IsSecondary;
    LowBitsOf(v / 256, j, bits);
    assert t'[p] == t[p];
    var k := Slot(t[p], v);
    assert k - (base + 256) == (v / 256) % Pow2(bits);
  }

  lemma SecondaryLookup(t: seq<nat>, t': seq<nat>, s: nat, j: nat, code: nat, base: nat, bits: nat, used: nat, v: nat)
    requires |t| == TABLE_SIZE && s < 512 && 9 <= j <= MAX_LENGTH && code < Pow2(j)
    requires PointsTo(t[code % 256], base, bits) && bits >= j - 8 && Layout(t, used, j - 8)
    requires Strided(t, t', base + 256, code / 256, Pow2(j - 8), Pow2(bits), s + (j - 8) * 512)
    ensures v % Pow2(j) == code ==> Lookup(t', v) == (s, j)
    ensures v % Pow2(j) != code ==> Lookup(t', v) == Lookup(t, v) && Raw(t', v) == Raw(t, v)
  {
    hide Rev; hide Pow2; hide EntryBits; hide EntryValue; hide IsSecondary; hide Strided; hide Layout; hide Raw;
    var value := s + (j - 8) * 512;
    SplitMatch(v, j, code);
    EntryFields(s, j - 8, 0);
    if v % 256 == code % 256 {
      SecondaryHit(t, t', code % 256, base, bits, code / 256, j - 8, value, v);
    } else {
      SecondaryMiss(t, t', code % 256, base, bits, code / 256, Pow2(j - 8), value, used, j - 8, v);
    }
  }

  lemma SecondaryKeepsLayout(t: seq<nat>, t': seq<nat>, base: nat, first: nat, step: nat, bits: nat, p: nat, value: nat,
      used: nat, least: nat)
    requires |t| == TABLE_SIZE && step > 0 && p < 256 && PointsTo(t[p], base, bits)
    requires Layout(t, used, least)
    requires Strided(t, t', base + 256, first, step, Pow2(bits), value)
    ensures Layout(t', used, least)
  {
    hide Pow2;
    assert forall q :: 0 <= q < 256 ==> t'[q] == t[q];
  }

  /** Storing one long code keeps the table right and adds that code. */
  lemma SecondaryAgrees(t: seq<nat>, t': seq<nat>, lens: seq<nat>, z: Zone, z': Zone, s: nat, code: nat, base: nat,
      bits: nat, used: nat)
    requires |t| == TABLE_SIZE && s < |lens| <= 512 && 9 <= lens[s] <= MAX_LENGTH && code < Pow2(lens[s])
    requires Spans(lens, lens[s], code, Start(lens, s)) && PointsTo(t[code % 256], base, bits) && bits >= lens[s] - 8
    requires Layout(t, used, lens[s] - 8) && Agrees(t, lens, z)
    requires Extends(z', z, Start(lens, s), Pow2(MAX_LENGTH - lens[s]))
    requires Strided(t, t', base + 256, code / 256, Pow2(lens[s] - 8), Pow2(bits), s + (lens[s] - 8) * 512)
    ensures |t'| == TABLE_SIZE && Agrees(t', lens, z')
  {
    hide Pow2; hide Place; hide Lookup; hide Raw; hide Layout; hide Strided; hide Start; hide Spans;
    StridedLength(t, t', base + 256, code / 256, Pow2(lens[s] - 8), Pow2(bits), s + (lens[s] - 8) * 512);
    forall v: nat, u: nat | Owns(lens, u, Place(lens, v)) && z'.Has(Place(lens, v))
      ensures Lookup(t', v) == (u, lens[u])
    {
      SecondaryLookup(t, t', s, lens[s], code, base, bits, used, v);
      SpansAt(lens, lens[s], code, Start(lens, s), v);
      if Owns(lens, s, Place(lens, v)) {
        OwnerUnique(lens, s, u, Place(lens, v));
      }
    }
  }

  /** Storing one long code leaves the rest empty. */
  lemma SecondaryBlank(t: seq<nat>, t': seq<nat>, lens: seq<nat>, z: Zone, z': Zone, s: nat, j: nat, code: nat,
      pos: nat, base: nat, bits: nat, used: nat)
    requires |t| == TABLE_SIZE && s < 512 && 9 <= j <= MAX_LENGTH && code < Pow2(j) && Spans(lens, j, code, pos)
    requires PointsTo(t[code % 256], base, bits) && bits >= j - 8 && Layout(t, used, j - 8)
    requires BlankOutside(t, lens, z) && Extends(z', z, pos, Pow2(MAX_LENGTH - j))
    requires Strided(t, t', base + 256, code / 256, Pow2(j - 8), Pow2(bits), s + (j - 8) * 512)
    ensures |t'| == TABLE_SIZE && BlankOutside(t', lens, z')
  {
    hide Rev; hide Pow2; hide Lookup; hide Raw; hide Layout; hide Strided; hide Place; hide Spans;
    StridedLength(t, t', base + 256, code / 256, Pow2(j - 8), Pow2(bits), s + (j - 8) * 512);
    forall v: nat | !z'.Has(Place(lens, v))
      ensures Raw(t', v) == 0
    {
      SecondaryLookup(t, t', s, j, code, base, bits, used, v);
      SpansAt(lens, j, code, pos, v);
      assert Raw(t, v) == 0;
    }
  }

  lemma StridedLength(t: seq<nat>, t': seq<nat>, off: nat, first: nat, step: nat, limit: nat, value: nat)
    requires step > 0 && Strided(t, t', off, first, step, limit, value)
    ensures |t'| == |t|
  {
  }

  /** No store of a long code ever meets an entry already in use. */
  lemma SecondaryFree(t: seq<nat>, lens: seq<nat>, z: Zone, j: nat, code: nat, pos: nat, base: nat, bits: nat, k: nat)
    requires |t| == TABLE_SIZE && 9 <= j <= MAX_LENGTH && code < Pow2(j) && Spans(lens, j, code, pos)
        && BlankOutside(t, lens, z)
    requires PointsTo(t[code % 256], base, bits) && bits >= j - 8
    requires forall q: nat :: InInterval(q, pos, Pow2(MAX_LENGTH - j)) ==> !z.Has(q)
    requires k < Pow2(bits) && k % Pow2(j - 8) == code / 256
    ensures base + 256 + k < TABLE_SIZE && t[base + 256 + k] == 0
  {
    hide Place; hide Pow2; hide Spans;
    var v := k * 256 + code % 256;
    assert v % 256 == code % 256 && v / 256 == k;
    SplitMatch(v, j, code);
    SpansAt(lens, j, code, pos, v);
    DivModUnique(k, Pow2(bits), 0, k);
    assert Slot(t[code % 256], v) == base + 256 + k;
    assert Raw(t, v) == 0;
  }

  /** The primary entry of a long code is either empty or already points to a table. */
  lemma PrimaryEntryOfLongCode(t: seq<nat>, lens: seq<nat>, z: Zone, j: nat, code: nat, pos: nat)
    requires |t| == TABLE_SIZE && 9 <= j <= MAX_LENGTH && code < Pow2(j) && Spans(lens, j, code, pos)
        && BlankOutside(t, lens, z)
    requires forall q: nat :: InInterval(q, pos, Pow2(MAX_LENGTH - j)) ==> !z.Has(q)
    ensures t[code % 256] == 0 || IsSecondary(t[code % 256])
  {
    hide Place; hide Pow2; hide Spans;
    assert code % Pow2(j) == code by { DivModUnique(code, Pow2(j), 0, code); }
    SpansAt(lens, j, code, pos, code);
    assert Raw(t, code) == 0;
  }

  /** The first bit tells the half that a place is in. */
  lemma HalfOfPlace(v: nat)
    ensures Rev(MAX_LENGTH, v) < Pow2(14) <==> v % 2 == 0
  {
    assert Pow2(1) == 2 && Rev(1, v % 2) == v % 2;
    hide Rev; hide Pow2;
    RevHigh(MAX_LENGTH, 1, v);
    QuotientIsInterval(Rev(MAX_LENGTH, v), Pow2(14), 0);
  }

  /** A code of one bit for symbol 0 takes the first half. */
  lemma FirstStart(lens: seq<nat>)
    requires |lens| > 0 && lens[0] == 1
    ensures Start(lens, 0) == 0
  {
  }

  /** A long code does not start with the bit of symbol 0, if that has a visible one-bit code. */
  lemma HalvesApart(lens: seq<nat>, s: nat, code: nat, v: nat)
    requires 0 < |lens| && lens[0] == 1 && s < |lens| && 9 <= lens[s] <= MAX_LENGTH && code < Pow2(lens[s])
    requires Spans(lens, lens[s], code, Start(lens, s)) && v % 2 == code % 2
    ensures !Owns(lens, 0, Place(lens, v))
  {
    hide Rev; hide Pow2; hide Shifted; hide Start; hide Spans;
    FirstStart(lens);
    HalfOfPlace(v);
    HalfOfPlace(code);
    DivModUnique(code, Pow2(lens[s]), 0, code);
    SpansAt(lens, lens[s], code, Start(lens, s), code);
    IntervalsOrdered(lens, 0, s);
    Pow2Mono(14, 15);
  }

  lemma SameLowestBit(v: nat, w: nat)
    requires v % 256 == w % 256
    ensures v % 2 == w % 2
  {
    assert Pow2(1) == 2;
    hide Pow2;
    LowBits(v, 1);
    LowBits(w, 1);
  }

  /** An entry that is 0 reads as symbol 0 with a code of one bit. */
  lemma ZeroEntry(t: seq<nat>, v: nat)
    requires |t| == TABLE_SIZE && t[v % 256] == 0
    ensures Lookup(t, v) == (0, 1)
  {
  }

  /** An empty primary entry of a long code is not an entry of symbol 0 in disguise. */
  lemma EmptyIsUnused(t: seq<nat>, lens: seq<nat>, z: Zone, s: nat, code: nat, u: nat, v: nat)
    requires |t| == TABLE_SIZE && s < |lens| && 9 <= lens[s] <= MAX_LENGTH && code < Pow2(lens[s])
    requires Spans(lens, lens[s], code, Start(lens, s)) && t[code % 256] == 0
    requires Agrees(t, lens, z)
    requires Owns(lens, u, Place(lens, v)) && v % 256 == code % 256
    ensures !z.Has(Place(lens, v))
  {
    hide *;
    SameLowestBit(v, code);
    if z.Has(Place(lens, v)) {
      AgreesAt(t, lens, z, u, v);
      ZeroEntry(t, v);
      HalvesApart(lens, s, code, v);
    }
  }

  lemma NewTableLookup(t: seq<nat>, p: nat, used: nat, bits: nat, v: nat)
    requires |t| == TABLE_SIZE && p < 256 && t[p] == 0 && used < 512 && 1 <= bits <= 7
    requires forall k :: 256 + used <= k < TABLE_SIZE ==> t[k] == 0
    ensures var t' := t[p := used + bits * 512 + 4096];
            && (v % 256 == p ==> Raw(t', v) == 0 && Raw(t, v) == 0)
            && (v % 256 != p ==> Raw(t', v) == Raw(t, v) && Lookup(t', v) == Lookup(t, v))
  {
    hide Pow2;
    EntryFields(used, bits, 1);
  }

  /** Opening a secondary table changes no lookup that matters. */
  lemma NewTableAgrees(t: seq<nat>, lens: seq<nat>, z: Zone, s: nat, code: nat, used: nat)
    requires |t| == TABLE_SIZE && s < |lens| && 9 <= lens[s] <= MAX_LENGTH && code < Pow2(lens[s]) && used < 512
    requires Spans(lens, lens[s], code, Start(lens, s)) && t[code % 256] == 0
    requires Layout(t, used, lens[s] - 8) && Agrees(t, lens, z)
    ensures Agrees(t[code % 256 := used + (lens[s] - 8) * 512 + 4096], lens, z)
  {
    var b, p := lens[s] - 8, code % 256;
    var t' := t[p := used + b * 512 + 4096];
    assert forall k :: 256 + used <= k < TABLE_SIZE ==> t[k] == 0;
    assert b <= 7;
    hide *;
    assert |t'| == TABLE_SIZE;
    assert Agrees(t', lens, z) by {
      forall v: nat, u: nat | Owns(lens, u, Place(lens, v)) && z.Has(Place(lens, v))
        ensures u < |lens| && Lookup(t', v) == (u, lens[u])
      {
        NewTableLookup(t, p, used, b, v);
        AgreesAt(t, lens, z, u, v);
        if v % 256 == p {
          EmptyIsUnused(t, lens, z, s, code, u, v);
        }
      }
      AgreesIf(t', lens, z);
    }
  }

  lemma AgreesAt(t: seq<nat>, lens: seq<nat>, z: Zone, u: nat, v: nat)
    requires |t| == TABLE_SIZE && Agrees(t, lens, z)
    requires Owns(lens, u, Place(lens, v)) && z.Has(Place(lens, v))
    ensures u < |lens| && Lookup(t, v) == (u, lens[u])
  {
  }

  lemma AgreesIf(t: seq<nat>, lens: seq<nat>, z: Zone)
    requires |t| == TABLE_SIZE
    requires forall v: nat, u: nat :: Owns(lens, u, Place(lens, v)) && z.Has(Place(lens, v)) ==>
               u < |lens| && Lookup(t, v) == (u, lens[u])
    ensures Agrees(t, lens, z)
  {
    hide Place; hide Lookup;
  }

  lemma NewTableBlank(t: seq<nat>, lens: seq<nat>, z: Zone, p: nat, used: nat, b: nat)
    requires |t| == TABLE_SIZE && p < 256 && t[p] == 0 && used < 512 && 1 <= b <= 7
    requires forall k :: 256 + used <= k < TABLE_SIZE ==> t[k] == 0
    requires BlankOutside(t, lens, z)
    ensures BlankOutside(t[p := used + b * 512 + 4096], lens, z)
  {
    hide Place; hide Raw; hide Lookup; hide Pow2;
    var t' := t[p := used + b * 512 + 4096];
    forall v: nat | !z.Has(Place(lens, v))
      ensures Raw(t', v) == 0
    {
      NewTableLookup(t, p, used, b, v);
      assert Raw(t, v) == 0;
    }
  }

  lemma NewTableLayout(t: seq<nat>, p: nat, used: nat, bits: nat)
    requires |t| == TABLE_SIZE && p < 256 && t[p] == 0 && used < 512 && 1 <= bits <= 7
    requires Layout(t, used, bits)
    ensures var t' := t[p := used + bits * 512 + 4096];
            Layout(t', used + Pow2(bits), bits) && PointsTo(t'[p], used, bits)
  {
    hide Pow2; hide EntryBits; hide EntryValue; hide IsSecondary;
    var t' := t[p := used + bits * 512 + 4096];
    EntryFields(used, bits, 1);
    assert PointsTo(t'[p], used, bits);
    assert forall q :: 0 <= q < TABLE_SIZE && q != p ==> t'[q] == t[q];
  }
}
