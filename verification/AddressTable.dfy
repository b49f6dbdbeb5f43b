/**
 Tables of address ranges: sorted by start, found by binary search and two short walks.
 The same code serves compilation units, functions and inlined calls.
 */
module AddressTable {
  import opened Wrappers
  import opened QuickSort

  /** The start of the entry behind the last one; no lookup is made for it. */
  const SENTINEL: nat := 0xffff_ffff_ffff_ffff

  /** low .. high belongs to what; tie orders entries with equal bounds. */
  datatype Range<+W> = Range(low: nat, high: nat, tie: int, what: W) {
    predicate Contains(pc: nat) {
      low <= pc < high
    }
  }

  /** By start; nested ranges with the smallest last. */
  function Compare<W>(a: Range<W>, b: Range<W>): int {
    if a.low < b.low then -1
    else if a.low > b.low then 1
    else if a.high < b.high then 1
    else if a.high > b.high then -1
    else if a.tie < b.tie then -1
    else if a.tie > b.tie then 1
    else 0
  }

  lemma ComparePreorder<W(!new)>()
    ensures Preorder<Range<W>>(Compare)
  {
  }

  ghost predicate Ordered<W>(t: seq<Range<W>>) {
    && (forall i, j :: 0 <= i < j < |t| ==> t[i].low <= t[j].low)
    && (forall i, j :: 0 <= i < j < |t| && t[i].low == t[j].low ==> t[i].high >= t[j].high)
    && (forall i :: 0 <= i < |t| ==> t[i].low <= SENTINEL)
  }

  lemma SortedIsOrdered<W>(t: seq<Range<W>>)
    requires Sorted(Compare, t) && forall i :: 0 <= i < |t| ==> t[i].low <= SENTINEL
    ensures Ordered(t)
  {
    forall i, j | 0 <= i < j < |t|
      ensures t[i].low <= t[j].low && (t[i].low == t[j].low ==> t[i].high >= t[j].high)
    {
      assert Compare(t[i], t[j]) <= 0;
    }
  }

  /** The start of entry i, or of the sentinel. */
  function LowAt<W>(t: seq<Range<W>>, i: nat): nat {
    if i < |t| then t[i].low else SENTINEL
  }

  /** The comparison of the binary search; the test against the next entry is not strict. */
  function Search<W>(t: seq<Range<W>>, pc: nat, i: nat): int {
    if pc < LowAt(t, i) then -1 else if pc > LowAt(t, i + 1) then 1 else 0
  }

  method BinarySearch<W>(t: seq<Range<W>>, pc: nat) returns (r: Option<nat>)
    requires Ordered(t)
    ensures r.Some? ==> r.value < |t| && Search(t, pc, r.value) == 0
    ensures r.None? ==> forall i :: 0 <= i < |t| ==> Search(t, pc, i) != 0
  {
    var l, u := 0, |t|;
    while l < u
      invariant 0 <= l <= u <= |t|
      invariant forall i :: 0 <= i < l || u <= i < |t| ==> Search(t, pc, i) != 0
    {
      var idx := (l + u) / 2;
      var c := Search(t, pc, idx);
      if c < 0 {
        u := idx;
      } else if c > 0 {
        l := idx + 1;
      } else {
        return Some(idx);
      }
    }
    return None;
  }

  // ----- what a lookup means

  /** The start of entry i is the greatest start at or below pc. */
  ghost predicate GreatestLow<W>(t: seq<Range<W>>, pc: nat, i: int) {
    0 <= i < |t| && t[i].low <= pc && forall j :: 0 <= j < |t| && t[j].low <= pc ==> t[j].low <= t[i].low
  }

  /** The tightest range around pc among those with the greatest start, and the last entry
      with such a range. */
  ghost predicate Tightest<W>(t: seq<Range<W>>, pc: nat, r: Option<nat>) {
    match r
    case None => forall i :: GreatestLow(t, pc, i) ==> !t[i].Contains(pc)
    case Some(k) =>
      && GreatestLow(t, pc, k) && t[k].Contains(pc)
      && forall i :: GreatestLow(t, pc, i) && t[i].Contains(pc) ==> t[k].high <= t[i].high && i <= k
  }

  lemma TightestUnique<W>(t: seq<Range<W>>, pc: nat, r: Option<nat>, q: Option<nat>)
    requires Tightest(t, pc, r) && Tightest(t, pc, q)
    ensures r == q
  {
    hide GreatestLow;
  }

  /** Entry i is the last one that starts at or below pc. */
  ghost predicate LastLow<W>(t: seq<Range<W>>, pc: nat, i: nat) {
    i < |t| && t[i].low <= pc < LowAt(t, i + 1)
  }

  lemma LastIsGreatest<W>(t: seq<Range<W>>, pc: nat, i: nat, j: nat)
    requires Ordered(t) && LastLow(t, pc, i) && j < |t|
    ensures GreatestLow(t, pc, j) <==> t[j].low == t[i].low && j <= i
  {
  }

  /** Nothing starts at or below pc when the search fails. */
  lemma SearchFails<W>(t: seq<Range<W>>, pc: nat)
    requires Ordered(t) && pc < SENTINEL && forall i :: 0 <= i < |t| ==> Search(t, pc, i) != 0
    ensures forall i :: 0 <= i < |t| ==> t[i].low > pc
  {
    if i :| 0 <= i < |t| && t[i].low <= pc {
      var k := i;
      while k + 1 < |t| && t[k + 1].low <= pc
        invariant i <= k < |t| && t[k].low <= pc
      {
        k := k + 1;
      }
      assert Search(t, pc, k) == 0;
    }
  }

  /** Walk forward past entries that start at pc. */
  method WalkForward<W>(t: seq<Range<W>>, pc: nat, k: nat) returns (i: nat)
    requires Ordered(t) && pc < SENTINEL && k < |t| && Search(t, pc, k) == 0
    ensures LastLow(t, pc, i)
  {
    i := k;
    while pc == LowAt(t, i + 1)
      invariant i < |t| && t[i].low <= pc <= LowAt(t, i + 1)
      decreases |t| - i
    {
      i := i + 1;
    }
  }

  /** Walk backward over entries with the same start to the first that contains pc. */
  method WalkBackward<W>(t: seq<Range<W>>, pc: nat, last: nat) returns (r: Option<nat>)
    requires Ordered(t) && LastLow(t, pc, last)
    ensures Tightest(t, pc, r)
  {
    var i: nat := last;
    while true
      invariant i <= last && t[i].low == t[last].low
      invariant forall j :: i < j <= last ==> pc >= t[j].high
      decreases i
    {
      if pc < t[i].high {
        BackwardFound(t, pc, last, i);
        return Some(i);
      }
      if i == 0 || t[i - 1].low < t[i].low {
        break;
      }
      i := i - 1;
    }
    BackwardNothing(t, pc, last, i);
    return None;
  }

  lemma BackwardFound<W>(t: seq<Range<W>>, pc: nat, last: nat, i: nat)
    requires Ordered(t) && LastLow(t, pc, last) && i <= last && t[i].low == t[last].low && pc < t[i].high
    requires forall j :: i < j <= last ==> pc >= t[j].high
    ensures Tightest(t, pc, Some(i))
  {
    LastIsGreatest(t, pc, last, i);
    forall j | GreatestLow(t, pc, j) && t[j].Contains(pc) ensures t[i].high <= t[j].high && j <= i {
      LastIsGreatest(t, pc, last, j);
    }
  }

  lemma BackwardNothing<W>(t: seq<Range<W>>, pc: nat, last: nat, i: nat)
    requires Ordered(t) && LastLow(t, pc, last) && i <= last && t[i].low == t[last].low
    requires forall j :: i <= j <= last ==> pc >= t[j].high
    requires i == 0 || t[i - 1].low < t[i].low
    ensures Tightest(t, pc, None)
  {
    assert forall j :: 0 <= j < i ==> t[j].low < t[last].low;
    hide Ordered; hide LastLow;
    forall j | GreatestLow(t, pc, j) ensures !t[j].Contains(pc) {
      LastIsGreatest(t, pc, last, j);
    }
  }

  method Lookup<W>(t: seq<Range<W>>, pc: nat) returns (r: Option<nat>)
    requires Ordered(t) && pc <= SENTINEL
    ensures pc == SENTINEL ==> r == None
    ensures pc < SENTINEL ==> Tightest(t, pc, r)
  {
    if |t| == 0 || pc == SENTINEL {
      return None;
    }
    var k := BinarySearch(t, pc);
    if k.None? {
      SearchFails(t, pc);
      return None;
    }
    var i := WalkForward(t, pc, k.value);
    r := WalkBackward(t, pc, i);
  }

  // ----- disjoint tables

  ghost predicate DisjointRanges<W>(t: seq<Range<W>>) {
    && (forall i :: 0 <= i < |t| ==> t[i].low < t[i].high)
    && (forall i, j :: 0 <= i < j < |t| ==> t[i].high <= t[j].low || t[j].high <= t[i].low)
  }

  /** For pairwise disjoint ranges the lookup is a linear scan. */
  lemma DisjointLookup<W>(t: seq<Range<W>>, pc: nat, r: Option<nat>)
    requires DisjointRanges(t) && Tightest(t, pc, r)
    ensures forall i :: 0 <= i < |t| && t[i].Contains(pc) ==> r == Some(i)
    ensures r.Some? ==> r.value < |t| && t[r.value].Contains(pc)
  {
    forall i | 0 <= i < |t| && t[i].Contains(pc) ensures r == Some(i) {
      assert GreatestLow(t, pc, i);
    }
  }

  /** Nested ranges with different starts: a range around pc is missed when another one
      starts later and has already ended. */
  lemma NestedMiss()
    ensures var t := [Range(0, 100, 0, "outer"), Range(10, 20, 0, "inner")];
            Ordered(t) && t[0].Contains(50) && Tightest(t, 50, None)
  {
    var t := [Range(0, 100, 0, "outer"), Range(10, 20, 0, "inner")];
    assert t[0].low <= 50 && t[1].low <= 50;
    forall i | GreatestLow(t, 50, i) ensures !t[i].Contains(50) {
      assert i == 0 || i == 1;
      assert t[1].low <= t[i].low;
    }
  }

  /** Every range that starts where entry k does has ended by pc. */
  ghost predicate AllEnded<W>(t: seq<Range<W>>, pc: nat, k: int) {
    0 <= k < |t| && forall i :: 0 <= i < |t| && t[i].low == t[k].low ==> t[i].high <= pc
  }

  /** A lookup misses a range around pc exactly when the ranges with the greatest start at or
      below pc have all ended. */
  lemma MissedExactly<W>(t: seq<Range<W>>, pc: nat, r: Option<nat>)
    requires Tightest(t, pc, r)
    requires exists i :: 0 <= i < |t| && t[i].Contains(pc)
    ensures r.None? <==> exists k :: GreatestLow(t, pc, k) && AllEnded(t, pc, k)
  {
    var i :| 0 <= i < |t| && t[i].Contains(pc);
    var k := GreatestExists(t, pc, i);
    if r.None? {
      forall j | 0 <= j < |t| && t[j].low == t[k].low ensures t[j].high <= pc {
        assert GreatestLow(t, pc, j);
      }
      assert AllEnded(t, pc, k);
    } else {
      forall m | GreatestLow(t, pc, m) ensures !AllEnded(t, pc, m) {
        assert t[r.value].low == t[m].low;
      }
    }
  }

  lemma GreatestExists<W>(t: seq<Range<W>>, pc: nat, i: nat) returns (k: nat)
    requires i < |t| && t[i].low <= pc
    ensures GreatestLow(t, pc, k)
  {
    k := i;
    for j := 0 to |t|
      invariant k < |t| && t[k].low <= pc
      invariant forall m :: 0 <= m < j && t[m].low <= pc ==> t[m].low <= t[k].low
    {
      if t[j].low <= pc && t[j].low > t[k].low {
        k := j;
      }
    }
  }
}
