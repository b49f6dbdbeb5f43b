/**
 The table builder of the inflater: count the code lengths, link the symbols of each
 length, store the short codes in the primary table and the long ones in secondary
 tables, longest first.
 */
module HuffmanBuild {
  import opened Bits
  import opened Canonical
  import opened HuffmanTable
  import opened HuffmanCodes
  import opened HuffmanPlaces

  /** Where the builder stops; every value but Built is its error return.  Symbols are
      below WORK_SIZE, so the test that a value fits nine bits always passes. */
  datatype Outcome = Built | BadLength | Oversubscribed | Collision | NoRoom

  // ----- symbols of one length, in order

  ghost predicate Heads(lens: seq<nat>, n: nat, count: seq<nat>, start: seq<nat>)
    requires n <= |lens|
  {
    && |count| == 16 && |start| == 16
    && forall l :: 0 <= l < 16 ==>
         count[l] == CountUpTo(lens, n, l) && (count[l] > 0 ==> IsNth(lens, l, 0, start[l]))
  }

  ghost predicate Lasts(lens: seq<nat>, n: nat, prev: seq<nat>)
    requires n <= |lens|
  {
    && |prev| == 16
    && forall l :: 0 <= l < 16 && CountUpTo(lens, n, l) > 0 ==>
         prev[l] < n && IsNth(lens, l, CountUpTo(lens, n, l) - 1, prev[l])
  }

  /** Every symbol below n that has a successor of its own length below n links to it. */
  ghost predicate Links(lens: seq<nat>, n: nat, next: seq<nat>)
    requires n <= |lens|
  {
    && n <= |next|
    && forall s :: 0 <= s < n && CountUpTo(lens, s, lens[s]) + 1 < CountUpTo(lens, n, lens[s]) ==>
         IsNth(lens, lens[s], CountUpTo(lens, s, lens[s]) + 1, next[s])
  }

  lemma CountNext(lens: seq<nat>, n: nat, l: nat)
    requires n < |lens|
    ensures CountUpTo(lens, n + 1, l) == CountUpTo(lens, n, l) + if lens[n] == l then 1 else 0
  {
  }

  lemma LinksStep(lens: seq<nat>, n: nat, prev: seq<nat>, next: seq<nat>, next': seq<nat>)
    requires n < |lens| && lens[n] < 16 && Lasts(lens, n, prev) && Links(lens, n, next) && n < |next|
    requires if CountUpTo(lens, n, lens[n]) == 0 then next' == next else next' == next[prev[lens[n]] := n]
    ensures Links(lens, n + 1, next')
  {
    hide CountUpTo;
    var l := lens[n];
    forall s | 0 <= s < n + 1 && CountUpTo(lens, s, lens[s]) + 1 < CountUpTo(lens, n + 1, lens[s])
      ensures IsNth(lens, lens[s], CountUpTo(lens, s, lens[s]) + 1, next'[s])
    {
      CountNext(lens, n, lens[s]);
      if lens[s] == l && CountUpTo(lens, s, l) + 1 == CountUpTo(lens, n, l) {
        assert IsNth(lens, l, CountUpTo(lens, n, l) - 1, prev[l]);
        RankInjective(lens, s, prev[l]);
      }
    }
  }

  lemma HeadsStep(lens: seq<nat>, n: nat, count: seq<nat>, start: seq<nat>, prev: seq<nat>)
    requires n < |lens| && lens[n] < 16 && Heads(lens, n, count, start) && Lasts(lens, n, prev)
    ensures var l := lens[n];
            && Heads(lens, n + 1, count[l := count[l] + 1], if count[l] == 0 then start[l := n] else start)
            && Lasts(lens, n + 1, prev[l := n])
  {
    hide CountUpTo;
    var l := lens[n];
    forall m | 0 <= m < 16
      ensures CountUpTo(lens, n + 1, m) == CountUpTo(lens, n, m) + if l == m then 1 else 0
    {
      CountNext(lens, n, m);
    }
  }

  lemma NoneYet(lens: seq<nat>, l: nat)
    ensures CountUpTo(lens, 0, l) == 0
  {
  }

  method CountLengths(lens: seq<nat>, next: array<nat>) returns (ok: bool, count: array<nat>, start: array<nat>)
    requires |lens| <= next.Length
    modifies next
    ensures ok <==> ValidLengths(lens)
    ensures ok ==> Heads(lens, |lens|, count[..], start[..]) && Links(lens, |lens|, next[..])
  {
    hide CountUpTo; hide IsNth;
    count := new nat[16](_ => 0);
    start := new nat[16](_ => 0);
    var prev := new nat[16](_ => 0);
    ok := false;
    forall l: nat ensures CountUpTo(lens, 0, l) == 0 { NoneYet(lens, l); }
    for i: nat := 0 to |lens|
      invariant fresh(count) && fresh(start) && fresh(prev) && count != start && start != prev && count != prev
      invariant forall k :: 0 <= k < i ==> lens[k] <= MAX_LENGTH
      invariant Heads(lens, i, count[..], start[..]) && Lasts(lens, i, prev[..]) && Links(lens, i, next[..])
    {
      var l := lens[i];
      if l >= 16 {
        return;
      }
      ghost var c, s, p, x := count[..], start[..], prev[..], next[..];
      HeadsStep(lens, i, c, s, p);
      LinksStep(lens, i, p, x, if c[l] == 0 then x else x[p[l] := i]);
      hide Heads; hide Lasts; hide Links;
      if count[l] == 0 {
        start[l] := i;
        prev[l] := i;
      } else {
        next[prev[l]] := i;
        prev[l] := i;
      }
      count[l] := count[l] + 1;
      assert count[..] == c[l := c[l] + 1] && prev[..] == p[l := i];
      assert start[..] == if c[l] == 0 then s[l := i] else s;
      assert next[..] == if c[l] == 0 then x else x[p[l] := i];
    }
    ok := true;
  }

  // ----- storing one value at every index that ends in one code

  lemma FirstCongruent(first: nat, step: nat)
    requires first < step
    ensures Congruent(first, step, first)
    ensures forall k :: 0 <= k < first ==> !Congruent(k, step, first)
  {
    DivModUnique(first, step, 0, first);
    forall k | 0 <= k < first ensures !Congruent(k, step, first) {
      DivModUnique(k, step, 0, k);
    }
  }

  lemma NextCongruent(ind: nat, step: nat, first: nat)
    requires step > 0 && Congruent(ind, step, first)
    ensures Congruent(ind + step, step, first)
    ensures forall k :: ind < k < ind + step ==> !Congruent(k, step, first)
  {
    var q := ind / step;
    MulDist(q, 1, step);
    DivModUnique(ind + step, step, q + 1, first);
    forall k | ind < k < ind + step ensures !Congruent(k, step, first) {
      if Congruent(k, step, first) {
        if k / step > q { MulMono(q + 1, k / step, step); } else { MulMono(k / step, q, step); }
      }
    }
  }

  method FillStride(table: array<nat>, off: nat, first: nat, step: nat, limit: nat, value: nat) returns (ok: bool)
    requires off + limit <= table.Length && first < step
    modifies table
    ensures ok ==> Strided(old(table[..]), table[..], off, first, step, limit, value)
    ensures ok ==> forall k :: 0 <= k < limit && Congruent(k, step, first) ==> old(table[off + k]) == 0
    ensures !ok ==> exists k :: 0 <= k < limit && Congruent(k, step, first) && old(table[off + k]) != 0
  {
    hide Congruent;
    var ind := first;
    FirstCongruent(first, step);
    while ind < limit
      invariant Congruent(ind, step, first)
      invariant forall k :: 0 <= k < table.Length ==>
        table[k] == if off <= k < off + limit && k < off + ind && Congruent(k - off, step, first) then value else old(table[k])
      invariant forall k :: 0 <= k < limit && k < ind && Congruent(k, step, first) ==> old(table[off + k]) == 0
      decreases limit - ind
    {
      if table[off + ind] != 0 {
        return false;
      }
      table[off + ind] := value;
      NextCongruent(ind, step, first);
      ind := ind + step;
    }
    return true;
  }

  // ----- the short codes

  /** The short codes before pos are in the table and nothing else is; pos is not beyond the
      place that would be met again, and the entry at that place is marked as used. */
  ghost predicate PrimaryState(t: seq<nat>, lens: seq<nat>, pos: nat) {
    && |t| == TABLE_SIZE && NoSecondary(t)
    && (forall k :: 256 <= k < TABLE_SIZE ==> t[k] == 0)
    && (Fits(lens) ==> Agrees(t, lens, Zone(pos, 0, 0, 0, 0)) && BlankOutside(t, lens, Zone(pos, 0, 0, 0, 0)))
    && pos <= Limit(lens) && (pos > MarkPlace(lens) ==> t[Mark(lens)] != 0)
  }

  lemma StridedNoSecondary(t: seq<nat>, t': seq<nat>, first: nat, step: nat, s: nat, b: nat)
    requires |t| == TABLE_SIZE && NoSecondary(t) && step > 0 && s < 512 && b < 8
    requires forall k :: 256 <= k < TABLE_SIZE ==> t[k] == 0
    requires Strided(t, t', 0, first, step, 256, s + b * 512)
    ensures NoSecondary(t') && forall k :: 256 <= k < TABLE_SIZE ==> t'[k] == 0
  {
    hide Congruent; hide Pow2;
    EntryFields(s, b, 0);
  }

  /** All entries that end in the code were empty. */
  ghost predicate WasEmpty(t: seq<nat>, j: nat, code: nat)
    requires |t| == TABLE_SIZE
  {
    forall k :: 0 <= k < 256 && Congruent(k, Pow2(j), code) ==> t[k] == 0
  }

  lemma FittingStep(t: seq<nat>, t': seq<nat>, lens: seq<nat>, j: nat, i: nat, s: nat)
    requires Codable(lens) && Fits(lens) && 1 <= j <= 8 && IsNth(lens, j, i, s) && i < Count(lens, j)
    requires |t| == TABLE_SIZE && NoSecondary(t) && BlankOutside(t, lens, Zone(PosAt(lens, j, i), 0, 0, 0, 0))
    requires Agrees(t, lens, Zone(PosAt(lens, j, i), 0, 0, 0, 0))
    requires Strided(t, t', 0, CodeAt(lens, j, i), Pow2(j), 256, s + (j - 1) * 512)
    ensures |t'| == TABLE_SIZE && BlankOutside(t', lens, Zone(PosAt(lens, j, i + 1), 0, 0, 0, 0))
    ensures Agrees(t', lens, Zone(PosAt(lens, j, i + 1), 0, 0, 0, 0))
  {
    hide Place; hide NextCode; hide End; hide Kraft; hide Pow2; hide Congruent; hide CodeAt; hide PosAt; hide Start;
    hide Fits; hide Shifted; hide Agrees; hide BlankOutside; hide Spans;
    var pos, w := PosAt(lens, j, i), Pow2(MAX_LENGTH - j);
    PosAtEnds(lens, j, i);
    if Placed(lens, j, i) {
      CodeSpans(lens, j, i);
      StartIsPos(lens, j, i, s);
      PrimaryBlank(t, t', lens, Zone(pos, 0, 0, 0, 0), Zone(pos + w, 0, 0, 0, 0), s, j, CodeAt(lens, j, i), pos);
      PrimaryAgrees(t, t', lens, Zone(pos, 0, 0, 0, 0), Zone(pos + w, 0, 0, 0, 0), s, CodeAt(lens, j, i));
    } else {
      ShiftedFirst(lens);
      FirstSymbol(lens, s);
      hide CountUpTo;
      AllBlank(t, t', lens, CodeAt(lens, j, i), pos);
      FirstHalfUnused(t', lens);
    }
  }

  /** Where the first half is used behind the second, no place is in it. */
  lemma FirstHalfUnused(t: seq<nat>, lens: seq<nat>)
    requires |t| == TABLE_SIZE && Shifted(lens)
    ensures Agrees(t, lens, Zone(Pow2(14), 0, 0, 0, 0))
  {
    hide Rev; hide Lookup; hide Pow2; hide Start; hide Shifted;
    Pow2Mono(14, 15);
  }

  /** The first symbol with a code of one bit is symbol 0 if that has one. */
  lemma FirstSymbol(lens: seq<nat>, s: nat)
    requires IsNth(lens, 1, 0, s) && lens[0] == 1
    ensures s == 0 && PosAt(lens, 1, 0) == 0
  {
    if s > 0 {
      CountMono(lens, 0, s, 1);
    }
  }

  /** Storing 0 into an empty table leaves it empty. */
  lemma AllBlank(t: seq<nat>, t': seq<nat>, lens: seq<nat>, code: nat, pos: nat)
    requires |t| == TABLE_SIZE && NoSecondary(t) && BlankOutside(t, lens, Zone(0, 0, 0, 0, 0)) && pos == 0
    requires Strided(t, t', 0, code, Pow2(1), 256, 0)
    ensures |t'| == TABLE_SIZE && forall z :: BlankOutside(t', lens, z)
  {
    hide Place; hide Pow2;
    forall v: nat ensures Raw(t', v) == 0 {
      assert Raw(t, v) == 0;
    }
  }

  lemma MarkStep(t: seq<nat>, t': seq<nat>, lens: seq<nat>, j: nat, i: nat, s: nat)
    requires Codable(lens) && 1 <= j <= 8 && IsNth(lens, j, i, s) && |t| == TABLE_SIZE
    requires PosAt(lens, j, i) <= Limit(lens) && (PosAt(lens, j, i) > MarkPlace(lens) ==> t[Mark(lens)] != 0)
    requires Strided(t, t', 0, CodeAt(lens, j, i), Pow2(j), 256, s + (j - 1) * 512)
        && WasEmpty(t, j, CodeAt(lens, j, i))
    ensures PosAt(lens, j, i + 1) <= Limit(lens) && |t'| == TABLE_SIZE
    ensures PosAt(lens, j, i + 1) > MarkPlace(lens) ==> t'[Mark(lens)] != 0
  {
    var pos, m := PosAt(lens, j, i), Mark(lens);
    Pow2Mono(1, j);
    assert Pow2(1) == 2;
    hide Rev; hide NextCode; hide End; hide Pow2; hide CodeAt; hide PosAt; hide CountUpTo;
    PosAtEnds(lens, j, i);
    DivModUnique(m, Pow2(j), 0, m);
    if pos == Limit(lens) || pos == MarkPlace(lens) {
      CodeAtMark(lens, j, i);
      assert Congruent(m, Pow2(j), CodeAt(lens, j, i));
    }
    if pos == MarkPlace(lens) {
      NotInvisible(lens, j, i, s);
    }
    if pos < Limit(lens) {
      StepToLimit(lens, j, i);
      if pos < MarkPlace(lens) {
        StepToMark(lens, j, i);
      }
    }
  }

  /** The symbol at the mark has an entry that is not 0. */
  lemma NotInvisible(lens: seq<nat>, j: nat, i: nat, s: nat)
    requires 1 <= j <= 8 && IsNth(lens, j, i, s) && PosAt(lens, j, i) == MarkPlace(lens)
    ensures s + (j - 1) * 512 != 0
  {
  }

  /** The stores for the i-th code of length j. */
  lemma PrimaryStateStep(t: seq<nat>, t': seq<nat>, lens: seq<nat>, j: nat, i: nat, s: nat)
    requires Codable(lens) && 1 <= j <= 8 && IsNth(lens, j, i, s) && i < Count(lens, j)
    requires PrimaryState(t, lens, PosAt(lens, j, i)) && WasEmpty(t, j, CodeAt(lens, j, i))
    requires Strided(t, t', 0, CodeAt(lens, j, i), Pow2(j), 256, s + (j - 1) * 512)
    ensures PrimaryState(t', lens, PosAt(lens, j, i + 1))
  {
    hide Rev; hide NextCode; hide End; hide CountUpTo; hide Kraft; hide Pow2; hide Agrees; hide BlankOutside;
    hide Congruent;
    hide CodeAt; hide PosAt; hide WasEmpty; hide Fits; hide Mark; hide MarkPlace; hide Limit;
    StridedNoSecondary(t, t', CodeAt(lens, j, i), Pow2(j), s, j - 1);
    MarkStep(t, t', lens, j, i, s);
    if Fits(lens) {
      FittingStep(t, t', lens, j, i, s);
    }
  }

  lemma PrimaryNoCollision(t: seq<nat>, lens: seq<nat>, j: nat, i: nat, s: nat, k: nat)
    requires Codable(lens) && 1 <= j <= 8 && IsNth(lens, j, i, s) && i < Count(lens, j) && Fits(lens)
    requires PrimaryState(t, lens, PosAt(lens, j, i))
    requires k < 256 && Congruent(k, Pow2(j), CodeAt(lens, j, i))
    ensures t[k] == 0
  {
    hide Rev; hide NextCode; hide End; hide Kraft; hide Pow2; hide Agrees; hide BlankOutside; hide CodeAt; hide PosAt;
    hide Fits;
    hide Shifted; hide Mark; hide MarkPlace; hide Limit;
    if Placed(lens, j, i) {
      CodeSpans(lens, j, i);
      PrimaryFree(t, lens, Zone(PosAt(lens, j, i), 0, 0, 0, 0), j, CodeAt(lens, j, i), PosAt(lens, j, i), k);
    } else {
      ShiftedFirst(lens);
      FirstSymbol(lens, s);
      hide CountUpTo;
      EntryBlank(t, lens, k);
    }
  }

  lemma ShiftedFirst(lens: seq<nat>)
    requires Shifted(lens)
    ensures |lens| > 0 && lens[0] == 1
  {
  }

  lemma EntryBlank(t: seq<nat>, lens: seq<nat>, k: nat)
    requires |t| == TABLE_SIZE && NoSecondary(t) && BlankOutside(t, lens, Zone(0, 0, 0, 0, 0)) && k < 256
    ensures t[k] == 0
  {
    hide Place;
    assert Raw(t, k) == 0;
  }

  /** The next link leads to the next symbol of the same length. */
  lemma FollowLink(lens: seq<nat>, next: seq<nat>, j: nat, i: nat, s: nat)
    requires Links(lens, |lens|, next) && IsNth(lens, j, i, s) && i + 1 < Count(lens, j)
    ensures s < |next| && IsNth(lens, j, i + 1, next[s])
  {
  }

  /** Go to the next symbol of length j and to its code. */
  method Advance(lens: seq<nat>, j: nat, jcnt: nat, i: nat, val: nat, code: nat, next: array<nat>) returns (val': nat,
      code': nat)
    requires Links(lens, |lens|, next[..]) && j >= 1 && i < jcnt == Count(lens, j)
    requires IsNth(lens, j, i, val) && code == CodeAt(lens, j, i)
    ensures i + 1 < jcnt ==> IsNth(lens, j, i + 1, val')
    ensures code' == CodeAt(lens, j, i + 1)
  {
    hide *;
    val' := val;
    if i + 1 < jcnt {
      FollowLink(lens, next[..], j, i, val);
      val' := next[val];
    }
    CodeAtNext(lens, j, i, 1);
    code' := AdvanceCode(j, code);
  }

  method FillPrimary(lens: seq<nat>, j: nat, jcnt: nat, first: nat, next: array<nat>, table: array<nat>, start: nat)
    returns (r: Outcome, code: nat)
    requires Codable(lens) && 1 <= j <= 8 && jcnt == Count(lens, j) && next != table
    requires jcnt > 0 ==> IsNth(lens, j, 0, first)
    requires Links(lens, |lens|, next[..])
    requires start == CodeAt(lens, j, 0) && PrimaryState(table[..], lens, PosAt(lens, j, 0))
        && table.Length == TABLE_SIZE
    modifies table
    ensures r == Built ==> code == CodeAt(lens, j, jcnt) && PrimaryState(table[..], lens, End(lens, j))
    ensures table.Length == TABLE_SIZE
    ensures Fits(lens) ==> r == Built
    ensures r in {Built, Collision}
  {
    hide Rev; hide NextCode; hide End; hide CountUpTo; hide Kraft; hide Pow2; hide PrimaryState; hide CodeAt; hide IsNth;
    hide Links;
    hide Congruent; hide Low; hide PosAt; hide Fits;
    var val: nat := first;
    code := start;
    for i := 0 to jcnt
      invariant i < jcnt ==> IsNth(lens, j, i, val)
      invariant code == CodeAt(lens, j, i)
      invariant table.Length == TABLE_SIZE
      invariant PrimaryState(table[..], lens, PosAt(lens, j, i))
    {
      ghost var t := table[..];
      var ok := FillStride(table, 0, code, Pow2(j), 256, val + (j - 1) * 512);
      if !ok {
        if Fits(lens) {
          ghost var k :| 0 <= k < 256 && Congruent(k, Pow2(j), code) && t[k] != 0;
          PrimaryNoCollision(t, lens, j, i, val, k);
        }
        return Collision, code;
      }
      PrimaryStateStep(t, table[..], lens, j, i, val);
      val, code := Advance(lens, j, jcnt, i, val, code, next);
    }
    PosAtEnds(lens, j, 0);
    return Built, code;
  }

  // ----- the long codes

  /** Short codes, the first i codes of length j, and all longer codes. */
  ghost function ZoneAt(lens: seq<nat>, j: nat, i: nat): Zone
    requires 9 <= j <= MAX_LENGTH
  {
    Zone(End(lens, 8), PosAt(lens, j, 0), PosAt(lens, j, i), End(lens, j), End(lens, MAX_LENGTH))
  }

  /** The entry that a code at the limit would meet is in use, if there is such an entry. */
  ghost predicate Marked(t: seq<nat>, lens: seq<nat>)
    requires |t| == TABLE_SIZE
  {
    End(lens, 8) > MarkPlace(lens) ==> t[Mark(lens)] != 0 && !IsSecondary(t[Mark(lens)])
  }

  ghost predicate SecondaryState(t: seq<nat>, lens: seq<nat>, used: nat, j: nat, i: nat)
    requires 9 <= j <= MAX_LENGTH
  {
    && |t| == TABLE_SIZE && used <= 639 && Layout(t, used, j - 8) && Marked(t, lens)
    && (Fits(lens) ==> Agrees(t, lens, ZoneAt(lens, j, i)) && BlankOutside(t, lens, ZoneAt(lens, j, i)))
  }

  /** The block of places that a primary entry stands for. */
  ghost function Block(lens: seq<nat>, p: nat): nat {
    var b := Rev(8, p);
    if Shifted(lens) && b < 128 then b + 256 else b
  }

  /** Exactly the blocks that codes have been stored in have secondary tables. */
  ghost predicate Opened(t: seq<nat>, lens: seq<nat>, j: nat, i: nat)
    requires 9 <= j <= MAX_LENGTH && |t| == TABLE_SIZE
  {
    forall p :: 0 <= p < 256 ==> (IsSecondary(t[p]) <==> HasTable(lens, j, i, Block(lens, p)))
  }

  /** The tables and entries in use when the first i codes of length j have their tables. */
  ghost predicate TableState(t: seq<nat>, lens: seq<nat>, used: nat, j: nat, i: nat)
    requires 9 <= j <= MAX_LENGTH && |t| == TABLE_SIZE
  {
    Fits(lens) ==> Opened(t, lens, j, i) && used == Spent(lens, j, i) && RoomSoFar(lens, j, i)
  }

  lemma LineBlock(lens: seq<nat>, v: nat)
    ensures Place(lens, v) / 128 == Block(lens, v % 256)
  {
    hide Rev; hide Shifted;
    Pow2Values();
    Pow2Add(7, 7);
    RevHigh(MAX_LENGTH, 8, v);
    Halves();
    hide Pow2;
    var q := Rev(MAX_LENGTH, v);
    assert q < 16384 <==> q / 128 < 128;
    assert (q + 32768) / 128 == q / 128 + 256;
  }

  lemma BlockOfCode(lens: seq<nat>, j: nat, i: nat)
    requires 9 <= j <= MAX_LENGTH && Fits(lens) && i < Count(lens, j)
    ensures Block(lens, CodeAt(lens, j, i) % 256) == PosAt(lens, j, i) / 128
  {
    hide Rev; hide Pow2; hide Fits; hide Shifted; hide PosAt; hide Place; hide Spans; hide Block; hide CodeAt;
    hide Count;
    var code, pos, w := CodeAt(lens, j, i), PosAt(lens, j, i), Pow2(MAX_LENGTH - j);
    CodeSpans(lens, j, i);
    SpansAt(lens, j, code, pos, code);
    DivModUnique(code, Pow2(j), 0, code);
    CodeInOneBlock(lens, j, i);
    LineBlock(lens, code);
    var x := Place(lens, code);
    assert pos <= x < pos + w;
    SameBlock(pos, w, x);
  }

  lemma SameBlock(pos: nat, w: nat, x: nat)
    requires pos % 128 + w <= 128 && pos <= x < pos + w
    ensures x / 128 == pos / 128
  {
  }

  lemma BlocksDiffer(lens: seq<nat>, p: nat, q: nat)
    requires p < 256 && q < 256 && p != q
    ensures Block(lens, p) != Block(lens, q)
  {
    Pow2Values();
    hide Rev; hide Shifted; hide Pow2;
    RevRev(8, p);
    RevRev(8, q);
  }

  /** A code whose block has a table does not change what is open. */
  lemma KeepOpen(t: seq<nat>, lens: seq<nat>, used: nat, j: nat, i: nat)
    requires 9 <= j <= MAX_LENGTH && |t| == TABLE_SIZE && i < Count(lens, j)
    requires TableState(t, lens, used, j, i) && IsSecondary(t[CodeAt(lens, j, i) % 256])
    ensures TableState(t, lens, used, j, i + 1)
  {
    if Fits(lens) {
      hide Rev; hide Pow2; hide Fits; hide PosAt; hide Block; hide CodeAt; hide Count; hide Spent; hide RoomSoFar;
      hide Edge; hide Reach;
      hide IsSecondary;
      BlockOfCode(lens, j, i);
      SpentStep(lens, j, i);
      ReachStep(lens, j, i);
    }
  }

  /** A code whose block has none gets the next table. */
  lemma OpenNext(t: seq<nat>, t': seq<nat>, lens: seq<nat>, used: nat, j: nat, i: nat)
    requires 9 <= j <= MAX_LENGTH && |t| == TABLE_SIZE && i < Count(lens, j) && used < 512
    requires TableState(t, lens, used, j, i) && !IsSecondary(t[CodeAt(lens, j, i) % 256])
    requires |t'| == TABLE_SIZE && IsSecondary(t'[CodeAt(lens, j, i) % 256])
    requires forall p :: 0 <= p < 256 && p != CodeAt(lens, j, i) % 256 ==> t'[p] == t[p]
    ensures TableState(t', lens, used + Pow2(j - 8), j, i + 1)
  {
    if Fits(lens) {
      hide Rev; hide Pow2; hide Fits; hide PosAt; hide Block; hide CodeAt; hide Count; hide Spent; hide RoomSoFar;
      hide Edge; hide Reach;
      hide IsSecondary;
      BlockOfCode(lens, j, i);
      SpentStep(lens, j, i);
      ReachStep(lens, j, i);
      var c := CodeAt(lens, j, i) % 256;
      forall p | 0 <= p < 256 ensures IsSecondary(t'[p]) <==> HasTable(lens, j, i + 1, Block(lens, p)) {
        if p != c {
          BlocksDiffer(lens, p, c);
        }
      }
    }
  }

  /** A code whose block has no table, and no room for one. */
  lemma NoRoomLeft(t: seq<nat>, lens: seq<nat>, used: nat, j: nat, i: nat)
    requires 9 <= j <= MAX_LENGTH && |t| == TABLE_SIZE && i < Count(lens, j) && used >= 512 && Fits(lens)
    requires TableState(t, lens, used, j, i) && !IsSecondary(t[CodeAt(lens, j, i) % 256])
    ensures !Room(lens)
  {
    hide Rev; hide Pow2; hide Fits; hide PosAt; hide Block; hide CodeAt; hide Count; hide Spent; hide RoomSoFar;
    hide Edge; hide Reach;
    hide IsSecondary; hide Room;
    BlockOfCode(lens, j, i);
    SpentStep(lens, j, i);
  }

  /** A code at the limit meets the marked entry. */
  lemma LimitMet(t: seq<nat>, lens: seq<nat>, j: nat, i: nat)
    requires 9 <= j <= MAX_LENGTH && |t| == TABLE_SIZE && Marked(t, lens)
    requires End(lens, 8) > MarkPlace(lens) && PosAt(lens, j, i) == Limit(lens)
    ensures t[CodeAt(lens, j, i) % 256] != 0 && !IsSecondary(t[CodeAt(lens, j, i) % 256])
  {
    hide Pow2; hide PosAt; hide CodeAt; hide Limit; hide MarkPlace; hide IsSecondary;
    CodeAtMark(lens, j, i);
  }

  lemma ZoneStep(lens: seq<nat>, j: nat, i: nat)
    requires 9 <= j <= MAX_LENGTH
    ensures Extends(ZoneAt(lens, j, i + 1), ZoneAt(lens, j, i), PosAt(lens, j, i), Pow2(MAX_LENGTH - j))
  {
    hide Pow2; hide Count;
    PosAtEnds(lens, j, i);
    MulMono(0, i, Pow2(MAX_LENGTH - j));
  }

  lemma ZoneFresh(lens: seq<nat>, j: nat, i: nat)
    requires 9 <= j <= MAX_LENGTH && i < Count(lens, j)
    ensures forall q: nat :: InInterval(q, PosAt(lens, j, i), Pow2(MAX_LENGTH - j)) ==> !ZoneAt(lens, j, i).Has(q)
  {
    hide Pow2; hide Count; hide End;
    EndMono(lens, 8, j - 1);
    PosAtEnds(lens, j, i);
    MulMono(0, i, Pow2(MAX_LENGTH - j));
    MulMono(i + 1, Count(lens, j), Pow2(MAX_LENGTH - j));
  }

  lemma OpenTable(t: seq<nat>, lens: seq<nat>, used: nat, j: nat, i: nat, s: nat)
    requires Codable(lens) && 9 <= j <= MAX_LENGTH && IsNth(lens, j, i, s) && i < Count(lens, j) && used < 512
    requires SecondaryState(t, lens, used, j, i) && t[CodeAt(lens, j, i) % 256] == 0
    ensures var p := CodeAt(lens, j, i) % 256;
            var t' := t[p := used + (j - 8) * 512 + 4096];
            PointsTo(t'[p], used, j - 8) && SecondaryState(t', lens, used + Pow2(j - 8), j, i)
  {
    hide Rev; hide NextCode; hide End; hide CountUpTo; hide Kraft; hide Pow2; hide Agrees; hide BlankOutside;
    hide CodeAt; hide ZoneAt;
    hide Fits; hide Mark; hide MarkPlace; hide Spans; hide Start; hide Shifted; hide PosAt;
    var code := CodeAt(lens, j, i);
    SecondaryWidth(j - 8);
    NewTableLayout(t, code % 256, used, j - 8);
    if Fits(lens) {
      CodeSpans(lens, j, i);
      StartIsPos(lens, j, i, s);
      NewTableAgrees(t, lens, ZoneAt(lens, j, i), s, code, used);
      NewTableBlank(t, lens, ZoneAt(lens, j, i), code % 256, used, j - 8);
    }
  }

  lemma SecondaryStateStep(t: seq<nat>, t': seq<nat>, lens: seq<nat>, used: nat, j: nat, i: nat, s: nat, base: nat,
      bits: nat)
    requires Codable(lens) && 9 <= j <= MAX_LENGTH && IsNth(lens, j, i, s) && i < Count(lens, j)
    requires SecondaryState(t, lens, used, j, i) && PointsTo(t[CodeAt(lens, j, i) % 256], base, bits) && bits >= j - 8
    requires Strided(t, t', base + 256, CodeAt(lens, j, i) / 256, Pow2(j - 8), Pow2(bits), s + (j - 8) * 512)
    ensures SecondaryState(t', lens, used, j, i + 1)
    ensures forall p :: 0 <= p < 256 ==> t'[p] == t[p]
  {
    hide Rev; hide NextCode; hide End; hide CountUpTo; hide Kraft; hide Pow2; hide Agrees; hide BlankOutside;
    hide CodeAt; hide ZoneAt;
    hide PosAt; hide Fits; hide Mark; hide MarkPlace; hide Spans; hide Shifted; hide Start;
    var code := CodeAt(lens, j, i);
    SecondaryKeepsLayout(t, t', base, code / 256, Pow2(j - 8), bits, code % 256, s + (j - 8) * 512, used, j - 8);
    hide Layout;
    ZoneStep(lens, j, i);
    if Fits(lens) {
      CodeSpans(lens, j, i);
      StartIsPos(lens, j, i, s);
      SecondaryAgrees(t, t', lens, ZoneAt(lens, j, i), ZoneAt(lens, j, i + 1), s, code, base, bits, used);
      SecondaryBlank(t, t', lens, ZoneAt(lens, j, i), ZoneAt(lens, j, i + 1), s, j, code, PosAt(lens, j, i), base, bits,
          used);
    }
  }

  lemma SecondaryNoCollision(t: seq<nat>, lens: seq<nat>, used: nat, j: nat, i: nat)
    requires Codable(lens) && 9 <= j <= MAX_LENGTH && i < Count(lens, j) && Fits(lens)
    requires SecondaryState(t, lens, used, j, i)
    ensures t[CodeAt(lens, j, i) % 256] == 0 || IsSecondary(t[CodeAt(lens, j, i) % 256])
  {
    hide Rev; hide NextCode; hide End; hide Kraft; hide Pow2; hide Agrees; hide BlankOutside; hide CodeAt; hide ZoneAt;
    hide PosAt;
    hide Layout; hide CountUpTo; hide Fits; hide Spans; hide Shifted; hide Marked;
    CodeSpans(lens, j, i);
    ZoneFresh(lens, j, i);
    PrimaryEntryOfLongCode(t, lens, ZoneAt(lens, j, i), j, CodeAt(lens, j, i), PosAt(lens, j, i));
  }

  lemma SecondaryNoOverlap(t: seq<nat>, lens: seq<nat>, used: nat, j: nat, i: nat, base: nat, bits: nat, k: nat)
    requires Codable(lens) && 9 <= j <= MAX_LENGTH && i < Count(lens, j) && Fits(lens)
    requires SecondaryState(t, lens, used, j, i) && PointsTo(t[CodeAt(lens, j, i) % 256], base, bits) && bits >= j - 8
    requires k < Pow2(bits) && Congruent(k, Pow2(j - 8), CodeAt(lens, j, i) / 256)
    ensures base + 256 + k < TABLE_SIZE && t[base + 256 + k] == 0
  {
    hide Rev; hide NextCode; hide End; hide Kraft; hide Pow2; hide Agrees; hide BlankOutside; hide CodeAt; hide ZoneAt;
    hide PosAt;
    hide Layout; hide CountUpTo; hide Fits; hide Spans; hide Shifted; hide Marked;
    CodeSpans(lens, j, i);
    ZoneFresh(lens, j, i);
    SecondaryFree(t, lens, ZoneAt(lens, j, i), j, CodeAt(lens, j, i), PosAt(lens, j, i), base, bits, k);
  }

  /** Find the secondary table for the i-th code of length j, or open one. */
  method PickTable(lens: seq<nat>, j: nat, i: nat, ghost s: nat, code: nat, used: nat, table: array<nat>)
    returns (r: Outcome, base: nat, bits: nat, used': nat)
    requires Codable(lens) && 9 <= j <= MAX_LENGTH && IsNth(lens, j, i, s) && i < Count(lens, j)
    requires code == CodeAt(lens, j, i) && table.Length == TABLE_SIZE
    requires SecondaryState(table[..], lens, used, j, i) && TableState(table[..], lens, used, j, i)
    modifies table
    ensures r == Built ==> SecondaryState(table[..], lens, used', j, i) && TableState(table[..], lens, used', j, i + 1)
                           && j - 8 <= bits < 8 && base < 512 && PointsTo(table[code % 256], base, bits)
    ensures r in {Built, Collision, NoRoom}
    ensures Fits(lens) ==> r != Collision && (r == NoRoom ==> !Room(lens))
    ensures r == Built && End(lens, 8) > MarkPlace(lens) ==> PosAt(lens, j, i) != Limit(lens)
  {
    hide Rev; hide NextCode; hide End; hide CountUpTo; hide Kraft; hide Pow2; hide Agrees; hide BlankOutside;
    hide CodeAt; hide ZoneAt;
    hide PosAt; hide Count; hide IsNth; hide Fits; hide TableState; hide Room; hide Limit; hide MarkPlace; hide Marked;
    base, bits, used' := 0, 0, used;
    ghost var t := table[..];
    if End(lens, 8) > MarkPlace(lens) && PosAt(lens, j, i) == Limit(lens) {
      LimitMet(t, lens, j, i);
    }
    var e := table[code % 256];
    if e == 0 {
      if used >= 512 {
        if Fits(lens) {
          NoRoomLeft(t, lens, used, j, i);
        }
        return NoRoom, base, bits, used';
      }
      OpenTable(t, lens, used, j, i, s);
      base, bits := used, j - 8;
      used' := used + Pow2(j - 8);
      var pointer: nat := used + (j - 8) * 512 + 4096;
      OpenNext(t, t[code % 256 := pointer], lens, used, j, i);
      table[code % 256] := pointer;
      assert table[..] == t[code % 256 := pointer];
    } else {
      if Fits(lens) {
        SecondaryNoCollision(t, lens, used, j, i);
      }
      if !IsSecondary(e) {
        return Collision, base, bits, used';
      }
      // Longer codes came first, so the test that the table is wide enough passes.
      assert EntryBits(e) >= j - 8;
      KeepOpen(t, lens, used, j, i);
      base, bits := EntryValue(e), EntryBits(e);
    }
    return Built, base, bits, used';
  }

  /** Store the i-th code of length j in its secondary table. */
  method StoreLong(lens: seq<nat>, j: nat, i: nat, val: nat, code: nat, base: nat, bits: nat, ghost used: nat,
      table: array<nat>)
    returns (ok: bool)
    requires Codable(lens) && 9 <= j <= MAX_LENGTH && IsNth(lens, j, i, val) && i < Count(lens, j)
    requires code == CodeAt(lens, j, i) && table.Length == TABLE_SIZE
    requires SecondaryState(table[..], lens, used, j, i)
    requires PointsTo(table[code % 256], base, bits) && j - 8 <= bits < 8 && base < 512
    modifies table
    ensures ok ==> SecondaryState(table[..], lens, used, j, i + 1)
    ensures ok ==> forall p :: 0 <= p < 256 ==> table[p] == old(table[p])
    ensures Fits(lens) ==> ok
  {
    hide *;
    TableSize();
    SecondaryWidth(bits);
    SplitMatch(0, j, code);
    ghost var t := table[..];
    ok := FillStride(table, base + 256, code / 256, Pow2(j - 8), Pow2(bits), val + (j - 8) * 512);
    if ok {
      SecondaryStateStep(t, table[..], lens, used, j, i, val, base, bits);
    } else if Fits(lens) {
      ghost var k :| 0 <= k < Pow2(bits) && Congruent(k, Pow2(j - 8), code / 256) && t[base + 256 + k] != 0;
      SecondaryNoOverlap(t, lens, used, j, i, base, bits, k);
    }
  }

  /** The secondary table the builder has at hand: that of the last primary index, if any. */
  datatype Cache = Cache(primary: nat, base: nat, bits: nat)

  ghost predicate CacheOk(c: Cache, t: seq<nat>, j: nat)
    requires |t| == TABLE_SIZE
  {
    c.primary < 256 ==> PointsTo(t[c.primary], c.base, c.bits) && j - 8 <= c.bits < 8 && c.base < 512
  }

  method PlaceLong(lens: seq<nat>, j: nat, i: nat, val: nat, code: nat, used: nat, c: Cache, table: array<nat>)
    returns (r: Outcome, used': nat, c': Cache)
    requires Codable(lens) && 9 <= j <= MAX_LENGTH && IsNth(lens, j, i, val) && i < Count(lens, j)
    requires code == CodeAt(lens, j, i) && table.Length == TABLE_SIZE
    requires SecondaryState(table[..], lens, used, j, i) && TableState(table[..], lens, used, j, i)
        && CacheOk(c, table[..], j)
    modifies table
    ensures r == Built ==> SecondaryState(table[..], lens, used', j, i + 1) && TableState(table[..], lens, used', j, i + 1)
                           && CacheOk(c', table[..], j)
    ensures r in {Built, Collision, NoRoom}
    ensures Fits(lens) ==> r != Collision && (r == NoRoom ==> !Room(lens))
    ensures r == Built && End(lens, 8) > MarkPlace(lens) ==> PosAt(lens, j, i) != Limit(lens)
  {
    hide *;
    TableSize();
    used', c' := used, c;
    if code % 256 != c.primary {
      var base, bits;
      r, base, bits, used' := PickTable(lens, j, i, val, code, used, table);
      if r != Built {
        return;
      }
      c' := Cache(code % 256, base, bits);
    } else {
      CacheHit(c, table[..], j);
      CachedOpen(table[..], lens, used, j, i, c);
    }
    ghost var t := table[..];
    var ok := StoreLong(lens, j, i, val, code, c'.base, c'.bits, used', table);
    if !ok {
      return Collision, used', c';
    }
    SamePrimary(t, table[..], lens, used', j, i + 1);
    CacheFill(c', table[..], j);
    return Built, used', c';
  }

  /** The table at hand is open, so nothing is opened and the limit is not met. */
  lemma CachedOpen(t: seq<nat>, lens: seq<nat>, used: nat, j: nat, i: nat, c: Cache)
    requires 9 <= j <= MAX_LENGTH && i < Count(lens, j) && SecondaryState(t, lens, used, j, i)
    requires |t| == TABLE_SIZE && TableState(t, lens, used, j, i)
    requires CodeAt(lens, j, i) % 256 == c.primary < 256 && PointsTo(t[c.primary], c.base, c.bits)
    ensures TableState(t, lens, used, j, i + 1)
    ensures End(lens, 8) > MarkPlace(lens) ==> PosAt(lens, j, i) != Limit(lens)
  {
    hide Rev; hide Pow2; hide CodeAt; hide PosAt; hide Count; hide Fits; hide TableState; hide Limit; hide MarkPlace;
    hide Marked;
    hide Layout; hide End; hide Kraft; hide ZoneAt; hide Agrees; hide BlankOutside;
    KeepOpen(t, lens, used, j, i);
    if End(lens, 8) > MarkPlace(lens) && PosAt(lens, j, i) == Limit(lens) {
      LimitMet(t, lens, j, i);
    }
  }

  lemma SamePrimary(t: seq<nat>, t': seq<nat>, lens: seq<nat>, used: nat, j: nat, i: nat)
    requires 9 <= j <= MAX_LENGTH && |t| == TABLE_SIZE && |t'| == TABLE_SIZE && TableState(t, lens, used, j, i)
    requires forall p :: 0 <= p < 256 ==> t'[p] == t[p]
    ensures TableState(t', lens, used, j, i)
  {
    hide Fits; hide HasTable; hide Block; hide Spent; hide RoomSoFar; hide IsSecondary;
  }

  lemma CacheHit(c: Cache, t: seq<nat>, j: nat)
    requires |t| == TABLE_SIZE && CacheOk(c, t, j) && c.primary < 256
    ensures PointsTo(t[c.primary], c.base, c.bits) && j - 8 <= c.bits < 8 && c.base < 512
  {
  }

  lemma CacheFill(c: Cache, t: seq<nat>, j: nat)
    requires |t| == TABLE_SIZE && c.primary < 256
    requires PointsTo(t[c.primary], c.base, c.bits) && j - 8 <= c.bits < 8 && c.base < 512
    ensures CacheOk(c, t, j)
  {
  }

  method FillSecondary(lens: seq<nat>, j: nat, jcnt: nat, first: nat, next: array<nat>, table: array<nat>, start: nat,
      used: nat)
    returns (r: Outcome, used': nat)
    requires Codable(lens) && 9 <= j <= MAX_LENGTH && jcnt == Count(lens, j) && next != table
    requires jcnt > 0 ==> IsNth(lens, j, 0, first)
    requires Links(lens, |lens|, next[..])
    requires start == CodeAt(lens, j, 0) && table.Length == TABLE_SIZE
    requires SecondaryState(table[..], lens, used, j, 0) && TableState(table[..], lens, used, j, 0)
    modifies table
    ensures r == Built ==> SecondaryState(table[..], lens, used', j, jcnt) && TableState(table[..], lens, used', j, jcnt)
    ensures r in {Built, Collision, NoRoom}
    ensures Fits(lens) ==> r != Collision && (r == NoRoom ==> !Room(lens))
    ensures r == Built && End(lens, 8) > MarkPlace(lens) && End(lens, j - 1) <= Limit(lens) ==>
          End(lens, j) <= Limit(lens)
  {
    var val: nat, code: nat, c := first, start, Cache(0x100, 0, 0);
    assert CacheOk(c, table[..], j);
    hide *;
    used' := used;
    PosAtEnds(lens, j, 0);
    for i := 0 to jcnt
      invariant i < jcnt ==> IsNth(lens, j, i, val)
      invariant code == CodeAt(lens, j, i)
      invariant SecondaryState(table[..], lens, used', j, i) && TableState(table[..], lens, used', j, i)
          && CacheOk(c, table[..], j)
      invariant End(lens, 8) > MarkPlace(lens) && End(lens, j - 1) <= Limit(lens) ==> PosAt(lens, j, i) <= Limit(lens)
    {
      r, used', c := PlaceLong(lens, j, i, val, code, used', c, table);
      if r != Built {
        return;
      }
      PosAtEnds(lens, j, i);
      if PosAt(lens, j, i) < Limit(lens) {
        StepToLimit(lens, j, i);
      }
      val, code := Advance(lens, j, jcnt, i, val, code, next);
    }
    return Built, used';
  }

  // ----- the whole builder

  lemma TableSize()
    ensures TABLE_SIZE == 1024
  {
  }

  lemma HeadsFacts(lens: seq<nat>, count: array<nat>, start: array<nat>)
    requires Heads(lens, |lens|, count[..], start[..])
    ensures count.Length == 16 && start.Length == 16
    ensures forall l :: 0 <= l < 16 ==> count[l] == Count(lens, l) && (count[l] > 0 ==> IsNth(lens, l, 0, start[l]))
  {
    hide CountUpTo; hide IsNth;
    assert |count[..]| == 16 && |start[..]| == 16;
  }

  lemma CodableFacts(lens: seq<nat>)
    requires Codable(lens)
    ensures ValidLengths(lens) && MAX_LENGTH == 15 && |lens| < 512
  {
  }

  lemma CodableIf(lens: seq<nat>)
    requires ValidLengths(lens) && |lens| <= WORK_SIZE
    ensures Codable(lens)
  {
  }

  lemma EmptyTable(t: seq<nat>, lens: seq<nat>)
    requires |t| == TABLE_SIZE && forall k :: 0 <= k < TABLE_SIZE ==> t[k] == 0
    ensures PrimaryState(t, lens, PosAt(lens, 1, 0))
  {
    hide Rev; hide Pow2; hide Count;
    assert PosAt(lens, 1, 0) == 0;
  }

  lemma SkipLength(lens: seq<nat>, j: nat)
    requires 1 <= j <= MAX_LENGTH && Count(lens, j) == 0
    ensures PosAt(lens, j, 0) == End(lens, j)
  {
    PosAtEnds(lens, j, 0);
  }

  lemma NextLength(lens: seq<nat>, j: nat)
    requires 1 <= j < MAX_LENGTH
    ensures PosAt(lens, j + 1, 0) == End(lens, j)
  {
    PosAtEnds(lens, j + 1, 0);
  }

  method PrimaryPhase(lens: seq<nat>, count: array<nat>, start: array<nat>, next: array<nat>, table: array<nat>)
    returns (r: Outcome, code: nat)
    requires Codable(lens) && Heads(lens, |lens|, count[..], start[..]) && Links(lens, |lens|, next[..])
    requires table.Length == TABLE_SIZE && next != table && count != table && start != table
    requires forall k :: 0 <= k < TABLE_SIZE ==> table[k] == 0
    modifies table
    ensures r == Built ==> code == CodeAt(lens, 9, 0) && PrimaryState(table[..], lens, End(lens, 8))
    ensures r in {Built, Oversubscribed, Collision}
    ensures Fits(lens) ==> r == Built
    ensures r == Built ==> Count(lens, 1) <= 2
  {
    hide *;
    HeadsFacts(lens, count, start);
    CodableFacts(lens);
    EmptyTable(table[..], lens);
    CodeAtFirst(lens);
    code := 0;
    for j := 1 to 9
      invariant code == CodeAt(lens, j, 0)
      invariant j > 1 ==> Count(lens, 1) <= 2
      invariant PrimaryState(table[..], lens, if j == 9 then End(lens, 8) else PosAt(lens, j, 0))
    {
      var jcnt := count[j];
      CodeAtLonger(lens, j);
      if j < 8 { NextLength(lens, j); }
      if jcnt == 0 {
        SkipLength(lens, j);
      } else {
        OneBit();
        if jcnt > Pow2(j) {
          if Fits(lens) { FitsCount(lens, j); }
          return Oversubscribed, code;
        }
        r, code := FillPrimary(lens, j, jcnt, start[j], next, table, code);
        if r != Built {
          return r, code;
        }
      }
    }
    return Built, code;
  }

  /** There are fewer symbols than codes of any long length, so the reversed addition of a
      count never has a remainder. */
  lemma LongLengthHasRoom(lens: seq<nat>, j: nat)
    requires |lens| < 512 && 9 <= j
    ensures Count(lens, j) < Pow2(j)
  {
    Pow2Mono(9, j);
    Pow2Values();
  }

  method PassLength(lens: seq<nat>, j: nat, jcnt: nat, code: nat) returns (ok: bool, code': nat)
    requires Codable(lens) && 9 <= j && jcnt == Count(lens, j) && code == CodeAt(lens, j, 0)
    ensures ok && code' == CodeAt(lens, j + 1, 0)
  {
    hide *;
    CodableFacts(lens);
    CodeAtLonger(lens, j);
    CodeAtNext(lens, j, 0, jcnt);
    LongLengthHasRoom(lens, j);
    var rest;
    code', rest := AddCount(j, code, jcnt);
    ok := rest == 0;
  }

  /** The first reversed code of each long length. */
  method FirstCodes(lens: seq<nat>, count: array<nat>, code0: nat) returns (ok: bool, firstcode: array<nat>)
    requires Codable(lens) && count.Length == 16 && forall l :: 0 <= l < 16 ==> count[l] == Count(lens, l)
    requires code0 == CodeAt(lens, 9, 0)
    ensures fresh(firstcode) && firstcode.Length == 7 && ok
    ensures forall j :: 9 <= j <= 15 && Count(lens, j) > 0 ==> firstcode[j - 9] == CodeAt(lens, j, 0)
  {
    hide *;
    firstcode := new nat[7](_ => 0);
    var code := code0;
    ok := true;
    for j := 9 to 16
      invariant code == CodeAt(lens, j, 0) && ok
      invariant forall i :: 9 <= i < j && Count(lens, i) > 0 ==> firstcode[i - 9] == CodeAt(lens, i, 0)
    {
      var jcnt := count[j];
      if jcnt == 0 {
        CodeAtLonger(lens, j);
      } else {
        firstcode[j - 9] := code;
        ok, code := PassLength(lens, j, jcnt, code);
      }
    }
  }

  lemma SecondaryStart(t: seq<nat>, lens: seq<nat>)
    requires PrimaryState(t, lens, End(lens, 8))
    ensures SecondaryState(t, lens, 0, 15, 0)
  {
    hide Rev; hide Pow2; hide Count; hide End; hide PosAt; hide Lookup; hide Owns; hide Raw; hide Kraft; hide Place;
    hide Fits;
    hide Mark; hide MarkPlace; hide Limit;
    assert forall q: nat :: ZoneAt(lens, 15, 0).Has(q) <==> Zone(End(lens, 8), 0, 0, 0, 0).Has(q);
    MarkIsSmall(lens);
  }

  lemma MarkIsSmall(lens: seq<nat>)
    ensures Mark(lens) < 256
  {
  }

  lemma TablesStart(t: seq<nat>, lens: seq<nat>)
    requires PrimaryState(t, lens, End(lens, 8))
    ensures TableState(t, lens, 0, 15, 0)
  {
    hide Rev; hide Pow2; hide Count; hide PosAt; hide Kraft; hide Agrees; hide BlankOutside; hide Block; hide Edge;
    hide Reach; hide Limit;
    hide MarkPlace; hide Fits; hide IsSecondary; hide Spent;
    ReachEnds(lens, 15);
    SpentEnds(lens, 15);
    hide RoomSoFar; hide RoomAt;
  }

  lemma TablesShorter(t: seq<nat>, lens: seq<nat>, used: nat, j: nat)
    requires 10 <= j <= MAX_LENGTH && |t| == TABLE_SIZE && TableState(t, lens, used, j, Count(lens, j))
    ensures TableState(t, lens, used, j - 1, 0)
  {
    hide Rev; hide Pow2; hide Count; hide PosAt; hide Block; hide Edge; hide Reach; hide Fits; hide IsSecondary;
    hide Spent;
    hide RoomAt;
    ReachEnds(lens, j);
    ReachEnds(lens, j - 1);
    EdgeMono(lens, j);
    EdgeMono(lens, j - 1);
    SpentEnds(lens, j);
    SpentEnds(lens, j - 1);
    hide RoomSoFar;
  }

  lemma TablesEnd(t: seq<nat>, lens: seq<nat>, used: nat)
    requires |t| == TABLE_SIZE && TableState(t, lens, used, 9, Count(lens, 9))
    ensures Fits(lens) ==> Room(lens)
  {
    hide Rev; hide Pow2; hide Count; hide PosAt; hide Block; hide Edge; hide Reach; hide Fits; hide IsSecondary;
    hide Spent;
    hide RoomAt; hide HasTable;
    SpentEnds(lens, 9);
  }

  /** Having stored all codes of length j, the builder is ready for length j - 1. */
  lemma NextShorter(t: seq<nat>, lens: seq<nat>, used: nat, j: nat)
    requires 10 <= j <= MAX_LENGTH && SecondaryState(t, lens, used, j, Count(lens, j))
    ensures SecondaryState(t, lens, used, j - 1, 0)
  {
    hide Rev; hide Pow2; hide Count; hide End; hide PosAt; hide Lookup; hide Owns; hide Raw; hide Kraft; hide Place;
    hide Fits;
    PosAtEnds(lens, j, 0);
    EndMono(lens, j - 1, j);
    EndMono(lens, j, MAX_LENGTH);
    assert forall q: nat :: ZoneAt(lens, j - 1, 0).Has(q) <==> ZoneAt(lens, j, Count(lens, j)).Has(q);
  }

  /** Exactly the blocks with long codes have a secondary table. */
  lemma OpenedAtEnd(t: seq<nat>, lens: seq<nat>, used: nat, v: nat)
    requires |t| == TABLE_SIZE && Fits(lens) && TableState(t, lens, used, 9, Count(lens, 9))
    ensures IsSecondary(t[v % 256]) <==> Edge(lens, 8) <= Place(lens, v) / 128 < Edge(lens, MAX_LENGTH)
  {
    hide Place; hide Pow2; hide Count; hide PosAt; hide Block; hide Edge; hide Reach; hide Fits; hide IsSecondary;
    hide Spent; hide RoomSoFar;
    LineBlock(lens, v);
    ReachEnds(lens, 9);
    EdgeMono(lens, 9);
  }

  lemma BehindCodes(lens: seq<nat>, x: nat)
    requires x >= End(lens, MAX_LENGTH)
    ensures Edge(lens, 8) <= x / 128 < Edge(lens, MAX_LENGTH) <==> InLastBlock(lens, x)
  {
    hide End;
    EndMono(lens, 8, MAX_LENGTH);
    DivisionMono(End(lens, 8), x);
  }

  lemma DivisionMono(a: nat, b: nat)
    requires a <= b
    ensures a / 128 <= b / 128
  {
  }

  /** An empty entry reads as symbol 0. */
  lemma BlankLookup(t: seq<nat>, v: nat)
    requires |t| == TABLE_SIZE && Raw(t, v) == 0
    ensures Lookup(t, v) == (0, if IsSecondary(t[v % 256]) then 8 else 1)
  {
  }

  /** With every length stored, every lookup reads what is meant. */
  lemma AllStored(t: seq<nat>, lens: seq<nat>, used: nat)
    requires Fits(lens) && SecondaryState(t, lens, used, 9, Count(lens, 9))
    requires TableState(t, lens, used, 9, Count(lens, 9))
    ensures Means(t, lens)
  {
    hide Pow2; hide Count; hide End; hide PosAt; hide Lookup; hide Owns; hide Raw; hide Place; hide Meaning;
    hide Fits; hide Layout; hide Marked; hide TableState; hide InLastBlock; hide IsSecondary; hide Edge;
    PosAtEnds(lens, 9, 0);
    forall v: nat ensures Lookup(t, v) == Meaning(lens, v) {
      var x := Place(lens, v);
      if x < End(lens, MAX_LENGTH) {
        var s := PlaceOwned(lens, x, MAX_LENGTH);
        MeaningOwned(lens, v, s);
        assert ZoneAt(lens, 9, Count(lens, 9)).Has(x);
        AgreesAt(t, lens, ZoneAt(lens, 9, Count(lens, 9)), s, v);
      } else {
        MeaningUnowned(lens, v);
        OpenedAtEnd(t, lens, used, v);
        BehindCodes(lens, x);
        EndMono(lens, 8, MAX_LENGTH);
        EndMono(lens, 9, MAX_LENGTH);
        assert !ZoneAt(lens, 9, Count(lens, 9)).Has(x);
        BlankLookup(t, v);
      }
    }
  }

  /** Only so many entries of secondary tables are used. */
  ghost predicate EmptyFrom(t: seq<nat>, used: nat) {
    forall k :: 256 + used <= k < |t| ==> t[k] == 0
  }

  lemma EntriesUsed(t: seq<nat>, lens: seq<nat>, used: nat)
    requires Fits(lens) && SecondaryState(t, lens, used, 9, Count(lens, 9))
    requires TableState(t, lens, used, 9, Count(lens, 9))
    ensures EmptyFrom(t, Used(lens, 9))
  {
    hide Count; hide Fits; hide Agrees; hide BlankOutside; hide Marked; hide Opened; hide RoomSoFar; hide Spent;
    hide Used; hide Pow2; hide ZoneAt;
    SpentEnds(lens, 9);
  }

  method SecondaryPhase(lens: seq<nat>, count: array<nat>, start: array<nat>, next: array<nat>, firstcode: array<nat>,
      table: array<nat>)
    returns (r: Outcome)
    requires Codable(lens) && Heads(lens, |lens|, count[..], start[..]) && Links(lens, |lens|, next[..])
    requires table.Length == TABLE_SIZE && next != table && count != table && start != table && firstcode != table
    requires firstcode.Length == 7
    requires forall j :: 9 <= j <= 15 && Count(lens, j) > 0 ==> firstcode[j - 9] == CodeAt(lens, j, 0)
    requires PrimaryState(table[..], lens, End(lens, 8))
    modifies table
    ensures r == Built && Fits(lens) ==> Means(table[..], lens) && EmptyFrom(table[..], Used(lens, 9))
    ensures r in {Built, Collision, NoRoom}
    ensures Fits(lens) ==> r != Collision && (r == Built <==> Room(lens))
    ensures r == Built ==> End(lens, MAX_LENGTH) <= Limit(lens)
  {
    hide *;
    HeadsFacts(lens, count, start);
    CodableFacts(lens);
    SecondaryStart(table[..], lens);
    TablesStart(table[..], lens);
    StartBelowLimit(table[..], lens);
    var used := 0;
    var j := 15;
    while j >= 9
      invariant 8 <= j <= 15
      invariant j >= 9 ==> SecondaryState(table[..], lens, used, j, 0) && TableState(table[..], lens, used, j, 0)
      invariant j == 8 ==> SecondaryState(table[..], lens, used, 9, Count(lens, 9))
      invariant j == 8 ==> TableState(table[..], lens, used, 9, Count(lens, 9))
      invariant forall l :: j < l <= 15 ==> PassesLimit(lens, l)
    {
      var jcnt := count[j];
      if jcnt != 0 {
        r, used := FillSecondary(lens, j, jcnt, start[j], next, table, firstcode[j - 9], used);
        if r != Built {
          return;
        }
      }
      PassLimit(lens, j);
      if j > 9 {
        NextShorter(table[..], lens, used, j);
        TablesShorter(table[..], lens, used, j);
      }
      j := j - 1;
    }
    if Fits(lens) {
      AllStored(table[..], lens, used);
      EntriesUsed(table[..], lens, used);
    }
    TablesEnd(table[..], lens, used);
    AllBelowLimit(lens, 15);
    return Built;
  }

  /** The codes of length l do not cross the limit. */
  ghost predicate PassesLimit(lens: seq<nat>, l: nat)
    requires 1 <= l <= MAX_LENGTH
  {
    End(lens, 8) > MarkPlace(lens) && End(lens, l - 1) <= Limit(lens) ==> End(lens, l) <= Limit(lens)
  }

  lemma PassLimit(lens: seq<nat>, l: nat)
    requires 1 <= l <= MAX_LENGTH
    requires Count(lens, l) > 0 && End(lens, 8) > MarkPlace(lens) && End(lens, l - 1) <= Limit(lens) ==>
          End(lens, l) <= Limit(lens)
    ensures PassesLimit(lens, l)
  {
    if Count(lens, l) == 0 {
      SkipsEnd(lens, l);
    }
  }

  lemma {:induction false} AllBelowLimit(lens: seq<nat>, l: nat)
    requires Codable(lens) && 8 <= l <= MAX_LENGTH && End(lens, 8) <= Limit(lens)
    requires forall k :: 9 <= k <= l ==> PassesLimit(lens, k)
    ensures End(lens, l) <= Limit(lens)
  {
    hide Pow2; hide Limit; hide MarkPlace; hide End;
    if End(lens, 8) <= MarkPlace(lens) {
      FewLong(lens);
      EndMono(lens, l, MAX_LENGTH);
    } else if l > 8 {
      AllBelowLimit(lens, l - 1);
      assert PassesLimit(lens, l);
    }
  }

  lemma StartBelowLimit(t: seq<nat>, lens: seq<nat>)
    requires PrimaryState(t, lens, End(lens, 8))
    ensures End(lens, 8) <= Limit(lens)
  {
  }

  /** What the two phases show together. */
  lemma BelowLimitFits(lens: seq<nat>)
    requires End(lens, MAX_LENGTH) <= Limit(lens) && Count(lens, 1) <= 2
    ensures Fits(lens)
  {
    Halves();
    hide End; hide CountUpTo;
  }

  /** Build the decoding table of the canonical code of lens.  It is built exactly for the sets
      of lengths that fit and that the secondary tables have room for.  It then reads any bits as
      they are meant; under the Kraft inequality it decodes every code. */
  method BuildTable(lens: seq<nat>, next: array<nat>, table: array<nat>) returns (r: Outcome)
    requires |lens| <= WORK_SIZE <= next.Length && table.Length == TABLE_SIZE && next != table
    modifies next, table
    ensures r == BadLength <==> !ValidLengths(lens)
    ensures r == Built <==> ValidLengths(lens) && Fits(lens) && Room(lens)
    ensures ValidLengths(lens) && Fits(lens) && !Room(lens) ==> r == NoRoom
    ensures r == Built ==> Means(table[..], lens) && EmptyFrom(table[..], Used(lens, 9))
    ensures r == Built && Kraft(lens) ==> Decodes(table[..], lens)
  {
    hide *;
    TableSize();
    var ok, count, start := CountLengths(lens, next);
    if !ok {
      return BadLength;
    }
    HeadsFacts(lens, count, start);
    CodableIf(lens);
    ghost var c, s, x := count[..], start[..], next[..];
    forall k | 0 <= k < table.Length {
      table[k] := 0;
    }
    assert count[..] == c && start[..] == s && next[..] == x;
    var code;
    r, code := PrimaryPhase(lens, count, start, next, table);
    if r != Built {
      return;
    }
    var firstcode;
    ok, firstcode := FirstCodes(lens, count, code);
    if !ok {
      return Oversubscribed;
    }
    r := SecondaryPhase(lens, count, start, next, firstcode, table);
    if r == Built {
      BelowLimitFits(lens);
      if Kraft(lens) {
        MeansDecodes(table[..], lens);
      }
    }
  }
}
