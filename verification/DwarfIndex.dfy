/**
 Sort and lookup together, on the entries in the order in which they were read; the line
 table; and the chain of inlined calls.
 */
module DwarfIndex {
  import opened Wrappers
  import opened QuickSort
  import opened AddressTable

  // ----- ranges, as they were read

  /** x starts as late as any entry that starts at or below pc. */
  ghost predicate GreatestIn<W>(all: multiset<Range<W>>, pc: nat, x: Range<W>) {
    x in all && x.low <= pc && forall y :: y in all && y.low <= pc ==> y.low <= x.low
  }

  /** The tightest of those that contain pc; of equal ranges the one with the greatest tie. */
  ghost predicate TightestIn<W>(all: multiset<Range<W>>, pc: nat, r: Option<Range<W>>) {
    match r
    case None => forall x :: x in all && GreatestIn(all, pc, x) ==> !x.Contains(pc)
    case Some(x) =>
      && GreatestIn(all, pc, x) && x.Contains(pc)
      && forall y :: y in all && GreatestIn(all, pc, y) && y.Contains(pc) ==>
           x.high < y.high || (x.high == y.high && y.tie <= x.tie)
  }

  lemma IndexToMember<W>(t: seq<Range<W>>, pc: nat, i: int)
    requires 0 <= i < |t|
    ensures GreatestLow(t, pc, i) <==> GreatestIn(multiset(t), pc, t[i])
  {
    assert t[i] in multiset(t);
    if GreatestIn(multiset(t), pc, t[i]) {
      forall j | 0 <= j < |t| && t[j].low <= pc ensures t[j].low <= t[i].low { assert t[j] in multiset(t); }
    }
  }

  lemma TightestMembers<W>(t: seq<Range<W>>, pc: nat, k: Option<nat>)
    requires Tightest(t, pc, k) && Sorted(Compare, t)
    ensures TightestIn(multiset(t), pc, if k.Some? then Some(t[k.value]) else None)
  {
    hide GreatestIn; hide GreatestLow;
    forall x | x in multiset(t) && GreatestIn(multiset(t), pc, x)
      ensures exists i :: 0 <= i < |t| && t[i] == x && GreatestLow(t, pc, i)
    {
      InMultiset(t, pc, x);
      var i :| 0 <= i < |t| && t[i] == x;
      IndexToMember(t, pc, i);
    }
    if k.Some? {
      InRange(t, pc, k.value);
      IndexToMember(t, pc, k.value);
      var x := t[k.value];
      forall y | y in multiset(t) && GreatestIn(multiset(t), pc, y) && y.Contains(pc)
        ensures x.high < y.high || (x.high == y.high && y.tie <= x.tie)
      {
        var i :| 0 <= i < |t| && t[i] == y && GreatestLow(t, pc, i);
        SameStart(t, pc, i, k.value);
        if i < k.value {
          assert Compare(t[i], t[k.value]) <= 0;
        }
      }
    }
  }

  lemma SameStart<W>(t: seq<Range<W>>, pc: nat, i: int, k: int)
    requires GreatestLow(t, pc, i) && GreatestLow(t, pc, k)
    ensures t[i].low == t[k].low
  {
  }

  lemma InMultiset<W>(t: seq<Range<W>>, pc: nat, x: Range<W>)
    requires GreatestIn(multiset(t), pc, x)
    ensures exists i :: 0 <= i < |t| && t[i] == x
  {
  }

  lemma InRange<W>(t: seq<Range<W>>, pc: nat, k: int)
    requires GreatestLow(t, pc, k)
    ensures 0 <= k < |t|
  {
  }

  /** Sort the entries, then look pc up: the answer depends only on which entries were read,
      not on their order. */
  method SortAndLookup<W(!new)>(a: array<Range<W>>, count: nat, pc: nat) returns (r: Option<Range<W>>)
    requires count <= a.Length && pc <= SENTINEL
    requires forall i :: 0 <= i < count ==> a[i].low <= SENTINEL
    modifies a
    ensures if pc == SENTINEL then r == None else TightestIn(multiset(old(a[..count])), pc, r)
    ensures multiset(a[..count]) == multiset(old(a[..count]))
  {
    ghost var before := a[..count];
    assert a[0..count] == before;
    ComparePreorder<W>();
    var depth := Sort(a, 0, count, Compare);
    assert a[0..count] == a[..count];
    var t := a[..count];
    LowsKept(before, t);
    SortedIsOrdered(t);
    hide Ordered; hide Tightest; hide TightestIn; hide Sorted;
    var k := Lookup(t, pc);
    if pc == SENTINEL {
      return None;
    }
    TightestMembers(t, pc, k);
    TightestIndex(t, pc, k);
    r := if k.Some? then Some(t[k.value]) else None;
  }

  lemma TightestIndex<W>(t: seq<Range<W>>, pc: nat, k: Option<nat>)
    requires Tightest(t, pc, k)
    ensures k.Some? ==> k.value < |t|
  {
  }

  lemma LowsKept<W>(s: seq<Range<W>>, t: seq<Range<W>>)
    requires Same(s, t) && forall i :: 0 <= i < |s| ==> s[i].low <= SENTINEL
    ensures forall i :: 0 <= i < |t| ==> t[i].low <= SENTINEL
  {
    forall i | 0 <= i < |t| ensures t[i].low <= SENTINEL {
      SameMember(s, t, i);
    }
  }

  // ----- the line table

  /** A row of the line table: where it starts, when it was added, what it says. */
  datatype Row = Row(pc: nat, idx: nat, file: string, line: int)

  function CompareRows(a: Row, b: Row): int {
    if a.pc < b.pc then -1
    else if a.pc > b.pc then 1
    else if a.idx < b.idx then -1
    else if a.idx > b.idx then 1
    else 0
  }

  lemma CompareRowsPreorder()
    ensures Preorder<Row>(CompareRows)
  {
  }

  function PcAt(t: seq<Row>, i: nat): nat {
    if i < |t| then t[i].pc else SENTINEL
  }

  function SearchRow(t: seq<Row>, pc: nat, i: nat): int {
    if pc < PcAt(t, i) then -1 else if pc >= PcAt(t, i + 1) then 1 else 0
  }

  /** The last row added among those with the greatest start at or below pc. */
  ghost predicate CoveringRow(all: multiset<Row>, pc: nat, r: Option<Row>) {
    match r
    case None => forall x :: x in all ==> x.pc > pc
    case Some(x) =>
      && x in all && x.pc <= pc
      && forall y :: y in all && y.pc <= pc ==> y.pc < x.pc || (y.pc == x.pc && y.idx <= x.idx)
  }

  method SearchRows(t: seq<Row>, pc: nat) returns (r: Option<nat>)
    requires Sorted(CompareRows, t) && pc < SENTINEL && forall i :: 0 <= i < |t| ==> t[i].pc <= SENTINEL
    ensures r.Some? ==> r.value < |t| && t[r.value].pc <= pc < PcAt(t, r.value + 1)
    ensures r.None? ==> forall i :: 0 <= i < |t| ==> t[i].pc > pc
  {
    RowsAscend(t);
    hide Sorted;
    var l, u := 0, |t|;
    while l < u
      invariant 0 <= l <= u <= |t|
      invariant forall i :: u <= i < |t| ==> t[i].pc > pc
      invariant l > 0 ==> pc >= PcAt(t, l)
    {
      var idx := (l + u) / 2;
      var c := SearchRow(t, pc, idx);
      if c < 0 {
        u := idx;
      } else if c > 0 {
        l := idx + 1;
      } else {
        return Some(idx);
      }
    }
    return None;
  }

  lemma RowsAscend(t: seq<Row>)
    requires Sorted(CompareRows, t)
    ensures forall i, j :: 0 <= i < j < |t| ==> t[i].pc <= t[j].pc
  {
    forall i, j | 0 <= i < j < |t| ensures t[i].pc <= t[j].pc {
      assert CompareRows(t[i], t[j]) <= 0;
    }
  }

  lemma RowIsLast(t: seq<Row>, pc: nat, k: Option<nat>)
    requires Sorted(CompareRows, t)
    requires k.Some? ==> k.value < |t| && t[k.value].pc <= pc < PcAt(t, k.value + 1)
    requires k.None? ==> forall i :: 0 <= i < |t| ==> t[i].pc > pc
    ensures CoveringRow(multiset(t), pc, if k.Some? then Some(t[k.value]) else None)
  {
    if k.Some? {
      var x := t[k.value];
      assert x in multiset(t);
      forall y | y in multiset(t) && y.pc <= pc
        ensures y.pc < x.pc || (y.pc == x.pc && y.idx <= x.idx)
      {
        var i :| 0 <= i < |t| && t[i] == y;
        if i < k.value {
          assert CompareRows(t[i], t[k.value]) <= 0;
        }
      }
    } else {
      forall x | x in multiset(t) ensures x.pc > pc {
        var i :| 0 <= i < |t| && t[i] == x;
      }
    }
  }

  lemma RowsKept(s: seq<Row>, t: seq<Row>)
    requires Same(s, t) && forall i :: 0 <= i < |s| ==> s[i].pc <= SENTINEL
    ensures forall i :: 0 <= i < |t| ==> t[i].pc <= SENTINEL
    ensures multiset(s) == multiset(t)
  {
    forall i | 0 <= i < |t| ensures t[i].pc <= SENTINEL {
      SameMember(s, t, i);
    }
  }

  /** Sort the rows, then look pc up. */
  method SortAndFindRow(a: array<Row>, count: nat, pc: nat) returns (r: Option<Row>)
    requires count <= a.Length && pc < SENTINEL
    requires forall i :: 0 <= i < count ==> a[i].pc <= SENTINEL
    modifies a
    ensures CoveringRow(multiset(old(a[..count])), pc, r)
  {
    hide CoveringRow; hide Sorted; hide Same; hide Preorder; hide CompareRows;
    ghost var before := a[..count];
    assert a[0..count] == before;
    CompareRowsPreorder();
    var depth := Sort(a, 0, count, CompareRows);
    assert a[0..count] == a[..count];
    var t := a[..count];
    RowsKept(before, t);
    var k := SearchRows(t, pc);
    RowIsLast(t, pc, k);
    r := if k.Some? then Some(t[k.value]) else None;
  }

  // ----- inlined calls

  /** A function or inlined call; the caller is where an inlined call was expanded. */
  datatype Function = Function(name: string, callerFile: string, callerLine: int, inlined: seq<Range<Function>>)

  datatype Frame = Frame(name: string, file: string, line: int)

  ghost predicate WellFormed(f: Function) {
    Ordered(f.inlined) && forall i :: 0 <= i < |f.inlined| ==> WellFormed(f.inlined[i].what)
  }

  /** The calls inlined into f around pc, each one inside the one before it. */
  ghost predicate Chain(pc: nat, f: Function, chain: seq<Function>)
    decreases |chain|
  {
    if |chain| == 0 then Tightest(f.inlined, pc, None)
    else
      exists k: nat :: k < |f.inlined| && Tightest(f.inlined, pc, Some(k)) && f.inlined[k].what == chain[0]
                       && Chain(pc, chain[0], chain[1..])
  }

  /** The frames for a chain: innermost call first.  The first frame is at the position from
      the line table, every other one where the call before it was expanded. */
  ghost predicate FramesOf(chain: seq<Function>, file: string, line: int, frames: seq<Frame>) {
    && |frames| == |chain|
    && forall i :: 0 <= i < |frames| ==>
         var g := chain[|chain| - 1 - i];
         frames[i] == if i == 0 then Frame(g.name, file, line)
                      else Frame(g.name, chain[|chain| - i].callerFile, chain[|chain| - i].callerLine)
  }

  lemma FramesExtend(g: Function, chain: seq<Function>, file: string, line: int, frames: seq<Frame>)
    requires FramesOf(chain, file, line, frames)
    ensures var last := if |chain| == 0 then Frame(g.name, file, line)
                        else Frame(g.name, chain[0].callerFile, chain[0].callerLine);
            FramesOf([g] + chain, file, line, frames + [last])
  {
  }

  /** The position of f itself: where the outermost call was expanded into it. */
  ghost predicate PositionAfter(chain: seq<Function>, file: string, line: int, file': string, line': int) {
    if |chain| == 0 then file' == file && line' == line
    else file' == chain[0].callerFile && line' == chain[0].callerLine
  }

  /** These frames and this position are those of a chain of inlined calls around pc. */
  ghost predicate Inlined(pc: nat, f: Function, file: string, line: int, frames: seq<Frame>, file': string,
      line': int) {
    exists chain ::
      && (if pc == SENTINEL then chain == [] else Chain(pc, f, chain))
      && FramesOf(chain, file, line, frames) && PositionAfter(chain, file, line, file', line')
  }

  /** Report the calls inlined into f; the returned position is that of f itself. */
  method ReportInlined(pc: nat, f: Function, file: string, line: int) returns (frames: seq<Frame>, file': string,
      line': int)
    requires WellFormed(f) && pc <= SENTINEL
    ensures Inlined(pc, f, file, line, frames, file', line')
    decreases f
  {
    hide Tightest; hide Ordered; hide FramesOf;
    frames, file', line' := [], file, line;
    NoFrames(file, line);
    var k := Lookup(f.inlined, pc);
    if k.None? {
      assert PositionAfter([], file, line, file', line');
      return;
    }
    TightestIndex(f.inlined, pc, k);
    var g := f.inlined[k.value].what;
    frames, file', line' := ReportInlined(pc, g, file, line);
    ghost var inner :| Chain(pc, g, inner) && FramesOf(inner, file, line, frames)
        && PositionAfter(inner, file, line, file', line');
    FramesExtend(g, inner, file, line, frames);
    ghost var chain := [g] + inner;
    assert chain[1..] == inner;
    frames := frames + [Frame(g.name, file', line')];
    file', line' := g.callerFile, g.callerLine;
    assert PositionAfter(chain, file, line, file', line');
  }

  lemma NoFrames(file: string, line: int)
    ensures FramesOf([], file, line, [])
  {
  }
}
