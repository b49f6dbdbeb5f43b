/**
 Looking up an address: the unit, its line, its function and the calls inlined there.  The
 tables of a unit are read when they are first needed; a unit that turns out to have no line
 information is skipped in favour of an enclosing unit from the next lookup on.
 */
module DwarfLookup {
  import opened Wrappers
  import opened QuickSort
  import opened AddressTable
  import opened DwarfIndex

  /** What reading a unit gives. */
  datatype Unit = Useless | Tables(rows: seq<Row>, functions: seq<Range<Function>>)

  ghost predicate UnitOk(u: Unit) {
    u.Tables? ==>
      && Sorted(CompareRows, u.rows) && (forall i :: 0 <= i < |u.rows| ==> u.rows[i].pc <= SENTINEL)
      && Ordered(u.functions) && forall i :: 0 <= i < |u.functions| ==> WellFormed(u.functions[i].what)
  }

  ghost predicate Indexed(addrs: seq<Range<nat>>, units: seq<Unit>) {
    forall i :: 0 <= i < |addrs| ==> addrs[i].what < |units|
  }

  ghost predicate ModuleOk(addrs: seq<Range<nat>>, units: seq<Unit>) {
    && Ordered(addrs) && Indexed(addrs, units)
    && forall i :: 0 <= i < |units| ==> UnitOk(units[i])
  }

  /** From entry k, the first entry of a useful unit among k and the entries just before it
      that contain pc, or the last of those if none is useful. */
  ghost function Chosen(addrs: seq<Range<nat>>, units: seq<Unit>, pc: nat, k: nat): (r: nat)
    requires k < |addrs| && Indexed(addrs, units)
    ensures r <= k
  {
    if k > 0 && addrs[k - 1].Contains(pc) && units[addrs[k].what].Useless? then Chosen(addrs, units, pc, k - 1) else k
  }

  datatype Answer =
    | NotFound
    | NoLines
    | NoRow(unit: nat)
    | Line(row: Row)
    | Frames(frames: seq<Frame>)

  /** The frames of a function and of the calls inlined into it at pc. */
  ghost predicate Reported(u: Unit, pc: nat, frames: seq<Frame>)
    requires u.Tables?
  {
    exists row, k: nat, chain ::
      && CoveringRow(multiset(u.rows), pc, Some(row))
      && k < |u.functions| && Tightest(u.functions, pc, Some(k))
      && Chain(pc, u.functions[k].what, chain)
      && FramesOf([u.functions[k].what] + chain, row.file, row.line, frames)
  }

  ghost predicate AnswerIs(u: Unit, pc: nat, index: nat, r: Answer) {
    match r
    case NotFound => false
    case NoLines => u.Useless?
    case NoRow(i) => i == index && u.Tables? && CoveringRow(multiset(u.rows), pc, None)
    case Line(row) => u.Tables? && CoveringRow(multiset(u.rows), pc, Some(row)) && Tightest(u.functions, pc, None)
    case Frames(frames) => u.Tables? && Reported(u, pc, frames)
  }

  // ----- which entry answers

  /** Where the walk over units that are known to be useless ends, when the units in read have
      been read. */
  ghost function Skip(addrs: seq<Range<nat>>, units: seq<Unit>, read: set<nat>, pc: nat, k: nat): (r: nat)
    requires k < |addrs| && Indexed(addrs, units)
    ensures r <= k
  {
    var u := addrs[k].what;
    if k > 0 && addrs[k - 1].Contains(pc) && u in read && units[u].Useless? then Skip(addrs, units, read, pc, k - 1) else k
  }

  /** Entry e is of a useless unit that has not been read, and there is another one to go to. */
  ghost predicate Unnoticed(addrs: seq<Range<nat>>, units: seq<Unit>, read: set<nat>, pc: nat, e: nat)
    requires e < |addrs| && Indexed(addrs, units)
  {
    e > 0 && addrs[e - 1].Contains(pc) && units[addrs[e].what].Useless? && addrs[e].what !in read
  }

  /** Entry i is of a useless unit inside the entry before it. */
  ghost predicate Passed(addrs: seq<Range<nat>>, units: seq<Unit>, pc: nat, i: nat)
    requires i < |addrs| && Indexed(addrs, units)
  {
    i > 0 && addrs[i - 1].Contains(pc) && units[addrs[i].what].Useless?
  }

  /** The history-free entry is the first one, from k backward, that is not passed. */
  lemma {:induction false} ChosenExactly(addrs: seq<Range<nat>>, units: seq<Unit>, pc: nat, k: nat, e: nat)
    requires e <= k < |addrs| && Indexed(addrs, units)
    ensures e == Chosen(addrs, units, pc, k) <==>
            !Passed(addrs, units, pc, e) && forall i :: e < i <= k ==> Passed(addrs, units, pc, i)
    decreases k
  {
    if e < k {
      ChosenExactly(addrs, units, pc, k - 1, e);
      if Passed(addrs, units, pc, k) {
        assert Chosen(addrs, units, pc, k) == Chosen(addrs, units, pc, k - 1);
      } else {
        assert Chosen(addrs, units, pc, k) == k;
      }
    }
  }

  /** The same of the walk, which takes the units that have not been read for useful ones. */
  lemma {:induction false} SkipExactly(addrs: seq<Range<nat>>, units: seq<Unit>, read: set<nat>, pc: nat, k: nat, e: nat)
    requires e <= k < |addrs| && Indexed(addrs, units)
    ensures e == Skip(addrs, units, read, pc, k) <==>
            && !(Passed(addrs, units, pc, e) && addrs[e].what in read)
            && forall i :: e < i <= k ==> Passed(addrs, units, pc, i) && addrs[i].what in read
    decreases k
  {
    if e < k {
      SkipExactly(addrs, units, read, pc, k - 1, e);
      if Passed(addrs, units, pc, k) && addrs[k].what in read {
        assert Skip(addrs, units, read, pc, k) == Skip(addrs, units, read, pc, k - 1);
      } else {
        assert Skip(addrs, units, read, pc, k) == k;
      }
    }
  }

  /** The exact condition: a lookup is answered as if everything had been read before, if and
      only if the walk does not end at a useless unit that has not been noticed yet. */
  lemma {:induction false} AnsweredRight(addrs: seq<Range<nat>>, units: seq<Unit>, read: set<nat>, pc: nat, k: nat)
    requires k < |addrs| && Indexed(addrs, units)
    ensures Chosen(addrs, units, pc, k) <= Skip(addrs, units, read, pc, k)
    ensures Skip(addrs, units, read, pc, k) == Chosen(addrs, units, pc, k)
       <==> !Unnoticed(addrs, units, read, pc, Skip(addrs, units, read, pc, k))
    decreases k
  {
    if Skip(addrs, units, read, pc, k) < k {
      AnsweredRight(addrs, units, read, pc, k - 1);
    }
  }

  /** Reading more units never takes the walk away from its end. */
  lemma {:induction false} SkipMore(addrs: seq<Range<nat>>, units: seq<Unit>, read: set<nat>, more: set<nat>, pc: nat,
      k: nat)
    requires k < |addrs| && Indexed(addrs, units) && read <= more
    ensures Chosen(addrs, units, pc, k) <= Skip(addrs, units, more, pc, k) <= Skip(addrs, units, read, pc, k)
    decreases k
  {
    AnsweredRight(addrs, units, more, pc, k);
    if Skip(addrs, units, read, pc, k) < k {
      SkipMore(addrs, units, read, more, pc, k - 1);
    }
  }

  /** Noticing the unit where the walk ended takes it further. */
  lemma {:induction false} SkipNoticed(addrs: seq<Range<nat>>, units: seq<Unit>, read: set<nat>, pc: nat, k: nat)
    requires k < |addrs| && Indexed(addrs, units) && Unnoticed(addrs, units, read, pc, Skip(addrs, units, read, pc, k))
    ensures var u := addrs[Skip(addrs, units, read, pc, k)].what;
            Skip(addrs, units, read + {u}, pc, k) < Skip(addrs, units, read, pc, k)
    decreases k
  {
    if Skip(addrs, units, read, pc, k) < k {
      SkipNoticed(addrs, units, read, pc, k - 1);
    }
  }

  // ----- histories of lookups

  /** The entry that the search finds for pc. */
  ghost function Hit(addrs: seq<Range<nat>>, pc: nat): (r: Option<nat>)
    ensures r.Some? ==> r.value < |addrs| && pc != SENTINEL && Tightest(addrs, pc, r)
  {
    if pc != SENTINEL && exists k: nat :: Tightest(addrs, pc, Some(k)) then
      var k: nat :| Tightest(addrs, pc, Some(k)); Some(k)
    else None
  }

  lemma HitIs(addrs: seq<Range<nat>>, pc: nat, r: Option<nat>)
    requires pc != SENTINEL && Tightest(addrs, pc, r)
    ensures Hit(addrs, pc) == r
  {
    hide Tightest;
    var h := Hit(addrs, pc);
    if h.Some? {
      TightestUnique(addrs, pc, h, r);
    }
  }

  /** The entry that answers a lookup. */
  ghost function Answering(addrs: seq<Range<nat>>, units: seq<Unit>, read: set<nat>, pc: nat): (r: Option<nat>)
    requires Indexed(addrs, units)
    ensures r.Some? ==> r.value < |addrs|
  {
    match Hit(addrs, pc)
    case None => None
    case Some(k) => Some(Skip(addrs, units, read, pc, k))
  }

  /** The units that have been read after one lookup. */
  ghost function ReadBy(addrs: seq<Range<nat>>, units: seq<Unit>, read: set<nat>, pc: nat): (r: set<nat>)
    requires Indexed(addrs, units)
    ensures read <= r
  {
    match Answering(addrs, units, read, pc)
    case None => read
    case Some(e) => read + {addrs[e].what}
  }

  /** The units that have been read after lookups of all these addresses. */
  ghost function ReadAfter(addrs: seq<Range<nat>>, units: seq<Unit>, pcs: seq<nat>): set<nat>
    requires Indexed(addrs, units)
  {
    if |pcs| == 0 then {}
    else ReadBy(addrs, units, ReadAfter(addrs, units, pcs[..|pcs| - 1]), pcs[|pcs| - 1])
  }

  ghost function Times(pcs: seq<nat>, pc: nat): nat {
    if |pcs| == 0 then 0 else Times(pcs[..|pcs| - 1], pc) + if pcs[|pcs| - 1] == pc then 1 else 0
  }

  /** Every lookup of pc that is not answered right brings the next one closer. */
  lemma {:induction false} Progress(addrs: seq<Range<nat>>, units: seq<Unit>, pcs: seq<nat>, pc: nat, k: nat)
    requires Indexed(addrs, units) && Hit(addrs, pc) == Some(k)
    ensures var e, c := Skip(addrs, units, ReadAfter(addrs, units, pcs), pc, k), Chosen(addrs, units, pc, k);
            e == c || e + Times(pcs, pc) <= k
    decreases |pcs|
  {
    if |pcs| > 0 {
      var before, last := pcs[..|pcs| - 1], pcs[|pcs| - 1];
      var read := ReadAfter(addrs, units, before);
      Progress(addrs, units, before, pc, k);
      AnsweredRight(addrs, units, read, pc, k);
      SkipMore(addrs, units, read, ReadAfter(addrs, units, pcs), pc, k);
      if last == pc && Skip(addrs, units, read, pc, k) != Chosen(addrs, units, pc, k) {
        SkipNoticed(addrs, units, read, pc, k);
      }
    }
  }

  /** Repeated lookups converge: after as many lookups of pc as there are useless entries to
      skip, among any others, pc is answered as if everything had been read before. */
  lemma Converges(addrs: seq<Range<nat>>, units: seq<Unit>, pcs: seq<nat>, pc: nat, k: nat)
    requires Indexed(addrs, units) && Hit(addrs, pc) == Some(k)
    requires Times(pcs, pc) >= k - Chosen(addrs, units, pc, k)
    ensures Answering(addrs, units, ReadAfter(addrs, units, pcs), pc) == Some(Chosen(addrs, units, pc, k))
  {
    Progress(addrs, units, pcs, pc, k);
    AnsweredRight(addrs, units, ReadAfter(addrs, units, pcs), pc, k);
  }

  class Module {
    const addrs: seq<Range<nat>>
    const units: seq<Unit>
    /** The units that have been read. */
    var read: set<nat>

    ghost predicate Valid()
      reads this
    {
      ModuleOk(addrs, units) && forall i :: i in read ==> i < |units|
    }

    constructor (addrs: seq<Range<nat>>, units: seq<Unit>)
      requires ModuleOk(addrs, units)
      ensures Valid() && this.addrs == addrs && this.units == units && read == {}
    {
      this.addrs, this.units, read := addrs, units, {};
    }

    /** Walk backward from entry k over units that are known to be useless. */
    method SkipUseless(pc: nat, k: nat) returns (entry: nat)
      requires Valid() && k < |addrs|
      ensures entry == Skip(addrs, units, read, pc, k)
    {
      entry := k;
      while entry > 0 && addrs[entry - 1].Contains(pc)
        invariant entry <= k && Skip(addrs, units, read, pc, entry) == Skip(addrs, units, read, pc, k)
        decreases entry
      {
        var u := addrs[entry].what;
        if !(u in read && units[u].Useless?) {
          return;
        }
        entry := entry - 1;
      }
    }

    /** The entry whose unit is asked; the unit is read if it has not been. */
    method ChooseEntry(pc: nat) returns (r: Option<nat>)
      requires Valid() && pc <= SENTINEL
      modifies this
      ensures Valid() && r == Answering(addrs, units, old(read), pc)
      ensures read == ReadBy(addrs, units, old(read), pc)
      ensures r.None? <==> pc == SENTINEL || Tightest(addrs, pc, None)
    {
      hide Tightest; hide Skip; hide UnitOk;
      r := Lookup(addrs, pc);
      if pc != SENTINEL {
        HitIs(addrs, pc, r);
      }
      if r.None? {
        return;
      }
      TightestIndex(addrs, pc, r);
      NotBoth(addrs, pc, r);
      var entry := SkipUseless(pc, r.value);
      var u := addrs[entry].what;
      var newData := false;
      if u !in read {
        // Only a unit that could be read counts as new data.
        newData := units[u].Tables?;
        read := read + {u};
      }
      if units[u].Useless? && newData {
        // The branch that would look again is never taken.
        assert false;
      }
      r := Some(entry);
    }

    /** The answer for an address: that of the entry chosen for it. */
    method LookupPc(pc: nat) returns (r: Answer)
      requires Valid() && pc <= SENTINEL
      modifies this
      ensures Valid() && read == ReadBy(addrs, units, old(read), pc)
      ensures match Answering(addrs, units, old(read), pc)
              case None => r == NotFound
              case Some(e) => AnswerIs(units[addrs[e].what], pc, addrs[e].what, r)
      ensures r == NotFound <==> pc == SENTINEL || Tightest(addrs, pc, None)
    {
      hide Tightest; hide UnitOk; hide AnswerIs; hide ReadBy; hide Answering;
      var entry := ChooseEntry(pc);
      if entry.None? {
        return NotFound;
      }
      var u := addrs[entry.value].what;
      r := AskUnit(units[u], pc, u);
      AnswerFound(units[u], pc, u, r);
    }
  }

  lemma NotBoth(addrs: seq<Range<nat>>, pc: nat, r: Option<nat>)
    requires Tightest(addrs, pc, r) && r.Some?
    ensures !Tightest(addrs, pc, None)
  {
  }

  // ----- a lookup that depends on the one before it

  /** A useless unit inside a useful one. */
  function Enclosed(): (addrs: seq<Range<nat>>)
    ensures |addrs| == 2 && addrs[0].what == 0 && addrs[1].what == 1
  {
    [Range(0, 100, 0, 0), Range(10, 20, 0, 1)]
  }

  lemma InnerHit()
    ensures Ordered(Enclosed()) && Hit(Enclosed(), 15) == Some(1)
  {
    var t := Enclosed();
    assert t[1].low <= 15;
    assert Tightest(t, 15, Some(1));
    HitIs(t, 15, Some(1));
  }

  lemma OneRowOk(row: Row)
    requires row.pc == 0
    ensures ModuleOk(Enclosed(), [Tables([row], []), Useless])
  {
    hide Ordered; hide UnitOk; hide Hit;
    InnerHit();
    OneRowUnit(row);
    UselessUnit();
    NothingOrdered();
  }

  lemma OneRowUnit(row: Row)
    requires row.pc == 0
    ensures UnitOk(Tables([row], []))
  {
    hide Ordered; hide WellFormed;
    NothingOrdered();
    var rows := [row];
    assert rows[0] == row;
  }

  lemma UselessUnit()
    ensures UnitOk(Useless)
  {
  }

  lemma NothingOrdered()
    ensures Ordered<Function>([])
  {
  }

  /** The walk ends at the inner unit, and at the outer one when the inner one has been read. */
  lemma FirstThenSecond(row: Row)
    requires row.pc == 0
    ensures var units := [Tables([row], []), Useless];
            && Indexed(Enclosed(), units)
            && Answering(Enclosed(), units, {}, 15) == Some(1)
            && ReadBy(Enclosed(), units, {}, 15) == {1}
            && Answering(Enclosed(), units, {1}, 15) == Some(0)
            && Chosen(Enclosed(), units, 15, 1) == 0
  {
    hide Hit;
    InnerHit();
    var t, units := Enclosed(), [Tables([row], []), Useless];
    assert Skip(t, units, {1}, 15, 0) == 0 && Chosen(t, units, 15, 0) == 0;
    assert {} + {1} == {1};
  }

  /** The first of two equal lookups can differ from the second: it has no line because the
      tightest unit turns out to be useless, and only the second goes to the enclosing unit. */
  method SecondLookupDiffers(row: Row) returns (first: Answer, second: Answer)
    requires row.pc == 0
    ensures first == NoLines && second == Line(row)
  {
    hide ModuleOk; hide Indexed; hide Answering; hide ReadBy; hide Tightest; hide Enclosed; hide AnswerIs;
    OneRowOk(row);
    FirstThenSecond(row);
    var m := new Module(Enclosed(), [Tables([row], []), Useless]);
    first := m.LookupPc(15);
    NoLinesThere(first);
    second := m.LookupPc(15);
    OnlyRow(row, second);
  }

  lemma NoLinesThere(r: Answer)
    requires AnswerIs(Useless, 15, 1, r)
    ensures r == NoLines
  {
  }

  lemma OnlyRow(row: Row, r: Answer)
    requires row.pc == 0 && AnswerIs(Tables([row], []), 15, 0, r)
    ensures r == Line(row)
  {
    assert row in multiset([row]);
  }

  lemma AnswerFound(u: Unit, pc: nat, index: nat, r: Answer)
    requires AnswerIs(u, pc, index, r)
    ensures !r.NotFound?
  {
  }

  /** The line, the function, and the calls inlined into it. */
  method AskUnit(unit: Unit, pc: nat, index: nat) returns (r: Answer)
    requires UnitOk(unit) && pc < SENTINEL
    ensures AnswerIs(unit, pc, index, r)
  {
    hide Tightest; hide Ordered; hide WellFormed; hide CoveringRow; hide Sorted; hide Chain; hide FramesOf;
    hide Reported;
    if unit.Useless? {
      return NoLines;
    }
    var ln := SearchRows(unit.rows, pc);
    RowIsLast(unit.rows, pc, ln);
    if ln.None? {
      return NoRow(index);
    }
    var row := unit.rows[ln.value];
    var k := Lookup(unit.functions, pc);
    if k.None? {
      return Line(row);
    }
    TightestIndex(unit.functions, pc, k);
    var f := unit.functions[k.value].what;
    var frames, file, line := ReportInlined(pc, f, row.file, row.line);
    r := Frames(frames + [Frame(f.name, file, line)]);
    AllReported(unit, pc, row, k.value, frames, file, line);
  }

  /** The frames of the inlined calls and that of the function they are inlined into. */
  lemma AllReported(unit: Unit, pc: nat, row: Row, k: nat, frames: seq<Frame>, file: string, line: int)
    requires unit.Tables? && pc != SENTINEL && CoveringRow(multiset(unit.rows), pc, Some(row))
    requires k < |unit.functions| && Tightest(unit.functions, pc, Some(k))
    requires Inlined(pc, unit.functions[k].what, row.file, row.line, frames, file, line)
    ensures Reported(unit, pc, frames + [Frame(unit.functions[k].what.name, file, line)])
  {
    hide Tightest; hide CoveringRow; hide Chain; hide FramesOf;
    var f := unit.functions[k].what;
    var chain :| Chain(pc, f, chain) && FramesOf(chain, row.file, row.line, frames)
                 && PositionAfter(chain, row.file, row.line, file, line);
    FramesExtend(f, chain, row.file, row.line, frames);
  }
}
