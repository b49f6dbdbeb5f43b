/**
 Line and function tables are read when a unit is first needed and stored into it without a
 lock.  Four fields are stored one by one, the lines pointer last; whoever loads a lines
 pointer that is set goes on to load the others.  Several threads may read and store.
 */
module Publish {

  type Entry = int

  /** What a thread gets when it reads a unit: nothing useful, or tables. */
  datatype Data = Unusable | Usable(lines: seq<Entry>, functions: seq<Entry>)

  datatype Pointer = Null | Useless | At(addr: nat)

  datatype Fields = Fields(lines: Pointer, lineCount: nat, functions: Pointer, functionCount: nat)

  datatype Pc =
    | Start
    | Reading
    | Storing(mine: Fields, k: nat)
    | LoadLineCount(lines: Pointer)
    | LoadFunctionCount(lines: Pointer, lineCount: nat)
    | LoadFunctions(lines: Pointer, lineCount: nat, functionCount: nat)
    | Got(seen: Fields)
    | GaveUp

  /** tables[t] is what thread t gets if it comes to read the unit. */
  datatype State = State(tables: seq<Data>, heap: map<nat, seq<Entry>>, unit: Fields, threads: seq<Pc>)

  datatype Step = Load | ReadData(a: nat, b: nat) | Store

  // ----- steps

  ghost predicate Enabled(s: State, t: nat, step: Step) {
    && t < |s.threads| && |s.tables| == |s.threads|
    && match step
       case Load =>
         || s.threads[t].Start? || s.threads[t].LoadLineCount?
         || s.threads[t].LoadFunctionCount? || s.threads[t].LoadFunctions?
       case ReadData(a, b) => s.threads[t].Reading? && a != b && a !in s.heap && b !in s.heap
       case Store => s.threads[t].Storing? && s.threads[t].k < 4
  }

  /** What a thread is going to store; no function table is allocated for no functions. */
  function Mine(d: Data, a: nat, b: nat): Fields {
    if d.Unusable? then Fields(Useless, 0, Null, 0)
    else Fields(At(a), |d.lines|, if d.functions == [] then Null else At(b), |d.functions|)
  }

  function Goes(s: State, t: nat, pc: Pc): State
    requires t < |s.threads|
  {
    s.(threads := s.threads[t := pc])
  }

  function AfterLines(lines: Pointer): Pc {
    match lines
    case Null => Reading
    case Useless => GaveUp
    case At(_) => LoadLineCount(lines)
  }

  ghost function Apply(s: State, t: nat, step: Step): State
    requires Enabled(s, t, step)
  {
    var pc := s.threads[t];
    match step
    case Load =>
      (match pc
       case Start => Goes(s, t, AfterLines(s.unit.lines))
       case LoadLineCount(lines) => Goes(s, t, LoadFunctionCount(lines, s.unit.lineCount))
       case LoadFunctionCount(lines, n) =>
         if s.unit.functionCount == 0 then Goes(s, t, Got(Fields(lines, n, Null, 0)))
         else Goes(s, t, LoadFunctions(lines, n, s.unit.functionCount))
       case LoadFunctions(lines, n, m) => Goes(s, t, Got(Fields(lines, n, s.unit.functions, m))))
    case ReadData(a, b) =>
      var d := s.tables[t];
      var s' := Goes(s, t, Storing(Mine(d, a, b), 0));
      if d.Unusable? then s' else s'.(heap := s.heap[a := d.lines][b := d.functions])
    case Store =>
      var m := pc.mine;
      var u := s.unit;
      if pc.k == 0 then Goes(s, t, Storing(m, 1)).(unit := u.(lineCount := m.lineCount))
      else if pc.k == 1 then Goes(s, t, Storing(m, 2)).(unit := u.(functions := m.functions))
      else if pc.k == 2 then Goes(s, t, Storing(m, 3)).(unit := u.(functionCount := m.functionCount))
      else Goes(s, t, AfterLines(m.lines)).(unit := u.(lines := m.lines))
  }

  ghost predicate Init(s: State) {
    && |s.tables| == |s.threads| && s.heap == map[] && s.unit == Fields(Null, 0, Null, 0)
    && (forall t :: 0 <= t < |s.threads| ==> s.threads[t].Start?)
    && (forall t :: 0 <= t < |s.tables| && s.tables[t].Usable? ==> s.tables[t].lines != [])
  }

  /** The steps lead from s to s'. */
  ghost predicate Leads(s: State, run: seq<(nat, Step)>, s': State)
    decreases |run|
  {
    if run == [] then s == s'
    else Enabled(s, run[0].0, run[0].1) && Leads(Apply(s, run[0].0, run[0].1), run[1..], s')
  }

  // ----- what a thread may rely on

  /** The tables a thread has loaded are as long as the counts it has loaded say. */
  ghost predicate Consistent(heap: map<nat, seq<Entry>>, f: Fields) {
    && f.lines.At? && f.lines.addr in heap && |heap[f.lines.addr]| == f.lineCount
    && (f.functionCount > 0 ==> f.functions.At? && f.functions.addr in heap && |heap[f.functions.addr]| == f.functionCount)
  }

  ghost predicate Counts(d: Data, n: nat, m: nat) {
    match d
    case Unusable => n == 0 && m == 0
    case Usable(lines, functions) => n == |lines| && m == |functions|
  }

  /** All threads would read tables of the same sizes. */
  ghost predicate SameCounts(tables: seq<Data>, n: nat, m: nat) {
    forall t :: 0 <= t < |tables| ==> Counts(tables[t], n, m)
  }

  ghost predicate IsLines(s: State, p: Pointer) {
    p.At? && p.addr in s.heap && exists t ::
          0 <= t < |s.tables| && s.tables[t].Usable? && s.heap[p.addr] == s.tables[t].lines
  }

  ghost predicate IsFunctions(s: State, p: Pointer, m: nat) {
    m > 0 ==> p.At? && p.addr in s.heap && exists t ::
          0 <= t < |s.tables| && s.tables[t].Usable? && s.heap[p.addr] == s.tables[t].functions
  }

  ghost predicate LinesOk(s: State, p: Pointer) {
    p.Null? || p.Useless? || IsLines(s, p)
  }

  /** All three other fields are set. */
  ghost predicate Set(s: State, n: nat, m: nat, k: nat) {
    && (k >= 1 ==> s.unit.lineCount == n)
    && (k >= 2 ==> IsFunctions(s, s.unit.functions, m))
    && (k >= 3 ==> s.unit.functionCount == m)
  }

  ghost predicate ThreadOk(s: State, n: nat, m: nat, pc: Pc) {
    match pc
    case Start => true
    case Reading => true
    case Storing(mine, k) =>
      k < 4 && Set(s, n, m, k) && mine.lineCount == n && mine.functionCount == m && IsFunctions(s, mine.functions, m)
      && (mine.lines.Useless? || IsLines(s, mine.lines))
    case LoadLineCount(lines) => IsLines(s, lines) && Set(s, n, m, 3)
    case LoadFunctionCount(lines, c) => IsLines(s, lines) && Set(s, n, m, 3) && c == n
    case LoadFunctions(lines, c, f) => IsLines(s, lines) && Set(s, n, m, 3) && c == n && f == m
    case Got(seen) => IsLines(s, seen.lines) && seen.lineCount == n && seen.functionCount == m
        && IsFunctions(s, seen.functions, m)
    case GaveUp => true
  }

  ghost predicate Inv(s: State, n: nat, m: nat) {
    && |s.tables| == |s.threads| && SameCounts(s.tables, n, m)
    && LinesOk(s, s.unit.lines) && (s.unit.lines != Null ==> Set(s, n, m, 3))
    && forall t :: 0 <= t < |s.threads| ==> ThreadOk(s, n, m, s.threads[t])
  }

  // ----- every step keeps it

  ghost predicate HeapGrows(s: State, s': State) {
    s'.tables == s.tables && forall a :: a in s.heap ==> a in s'.heap && s'.heap[a] == s.heap[a]
  }

  /** A thread that does not move keeps its facts when fields only get the values that
      everybody stores. */
  lemma OthersOk(s: State, s': State, n: nat, m: nat, pc: Pc)
    requires ThreadOk(s, n, m, pc) && HeapGrows(s, s')
    requires forall k: nat :: k <= 3 && Set(s, n, m, k) ==> Set(s', n, m, k)
    ensures ThreadOk(s', n, m, pc)
  {
  }

  lemma LoadOk(s: State, n: nat, m: nat, t: nat)
    requires Inv(s, n, m) && Enabled(s, t, Load)
    ensures Inv(Apply(s, t, Load), n, m)
  {
    var s' := Apply(s, t, Load);
    assert ThreadOk(s, n, m, s.threads[t]);
    assert HeapGrows(s, s') && s'.unit == s.unit;
    assert ThreadOk(s', n, m, s'.threads[t]);
    forall u | 0 <= u < |s'.threads| ensures ThreadOk(s', n, m, s'.threads[u]) {
      if u != t {
        OthersOk(s, s', n, m, s.threads[u]);
      }
    }
  }

  lemma ReadOk(s: State, n: nat, m: nat, t: nat, a: nat, b: nat)
    requires Inv(s, n, m) && Enabled(s, t, ReadData(a, b))
    ensures Inv(Apply(s, t, ReadData(a, b)), n, m)
  {
    var s' := Apply(s, t, ReadData(a, b));
    assert ThreadOk(s, n, m, s.threads[t]);
    assert Counts(s.tables[t], n, m);
    assert HeapGrows(s, s') && s'.unit == s.unit;
    assert ThreadOk(s', n, m, s'.threads[t]);
    forall u | 0 <= u < |s'.threads| ensures ThreadOk(s', n, m, s'.threads[u]) {
      if u != t {
        OthersOk(s, s', n, m, s.threads[u]);
      }
    }
  }

  lemma StoreOk(s: State, n: nat, m: nat, t: nat)
    requires Inv(s, n, m) && Enabled(s, t, Store)
    ensures Inv(Apply(s, t, Store), n, m)
  {
    var s' := Apply(s, t, Store);
    assert ThreadOk(s, n, m, s.threads[t]);
    assert HeapGrows(s, s');
    assert forall k: nat :: k <= 3 && Set(s, n, m, k) ==> Set(s', n, m, k);
    assert ThreadOk(s', n, m, s'.threads[t]);
    forall u | 0 <= u < |s'.threads| ensures ThreadOk(s', n, m, s'.threads[u]) {
      if u != t {
        OthersOk(s, s', n, m, s.threads[u]);
      }
    }
  }

  lemma {:induction false} RunOk(s: State, n: nat, m: nat, run: seq<(nat, Step)>, s': State)
    requires Inv(s, n, m) && Leads(s, run, s')
    ensures Inv(s', n, m) && s'.tables == s.tables
    decreases |run|
  {
    hide Inv;
    if run != [] {
      var (t, step) := run[0];
      match step {
        case Load => LoadOk(s, n, m, t);
        case ReadData(a, b) => ReadOk(s, n, m, t, a, b);
        case Store => StoreOk(s, n, m, t);
      }
      RunOk(Apply(s, t, step), n, m, run[1..], s');
    }
  }

  // ----- the result

  /** In every interleaving, if all threads read tables of the same sizes, a thread that has
      loaded a lines pointer has tables that fit their counts; each is one that some thread
      read for this unit. */
  lemma PublishedConsistently(s: State, n: nat, m: nat, run: seq<(nat, Step)>, s': State, t: nat)
    requires Init(s) && SameCounts(s.tables, n, m) && Leads(s, run, s') && t < |s'.threads| && s'.threads[t].Got?
    ensures Consistent(s'.heap, s'.threads[t].seen)
    ensures IsLines(s', s'.threads[t].seen.lines) && s'.threads[t].seen.lineCount == n
        && s'.threads[t].seen.functionCount == m
    ensures s'.tables == s.tables
  {
    RunOk(s, n, m, run, s');
    assert ThreadOk(s', n, m, s'.threads[t]);
    var seen := s'.threads[t].seen;
    var i :| 0 <= i < |s'.tables| && s'.tables[i].Usable? && s'.heap[seen.lines.addr] == s'.tables[i].lines;
    assert Counts(s'.tables[i], n, m);
    if m > 0 {
      var j :| 0 <= j < |s'.tables| && s'.tables[j].Usable? && s'.heap[seen.functions.addr] == s'.tables[j].functions;
      assert Counts(s'.tables[j], n, m);
    }
  }

  /** If all threads read equal data, what a thread has loaded is that data. */
  lemma PublishedData(s: State, d: Data, run: seq<(nat, Step)>, s': State, t: nat)
    requires Init(s) && (forall u :: 0 <= u < |s.tables| ==> s.tables[u] == d)
    requires Leads(s, run, s') && t < |s'.threads| && s'.threads[t].Got?
    ensures d.Usable?
    ensures var f := s'.threads[t].seen;
            && f.lines.At? && f.lines.addr in s'.heap && s'.heap[f.lines.addr] == d.lines && f.lineCount == |d.lines|
            && f.functionCount == |d.functions|
            && (d.functions != [] ==> f.functions.At? && f.functions.addr in s'.heap && s'.heap[f.functions.addr] == d.functions)
  {
    var n, m := if d.Usable? then |d.lines| else 0, if d.Usable? then |d.functions| else 0;
    RunOk(s, n, m, run, s');
    assert ThreadOk(s', n, m, s'.threads[t]);
  }

  // ----- equal sizes are needed

  lemma {:induction false} LeadsMore(s: State, run: seq<(nat, Step)>, s': State, t: nat, step: Step)
    requires Leads(s, run, s') && Enabled(s', t, step)
    ensures Leads(s, run + [(t, step)], Apply(s', t, step))
    decreases |run|
  {
    var longer := run + [(t, step)];
    if run == [] {
      assert longer[1..] == [];
      assert Leads(Apply(s, t, step), [], Apply(s, t, step));
    } else {
      assert longer[1..] == run[1..] + [(t, step)];
      LeadsMore(Apply(s, run[0].0, run[0].1), run[1..], s', t, step);
    }
  }

  /** Threads t and u both find the unit unset, and read it. */
  lemma BothRead(s: State, t: nat, u: nat) returns (run: seq<(nat, Step)>, s': State)
    requires Init(s) && t < |s.threads| && u < |s.threads| && t != u
    ensures Leads(s, run, s') && s'.unit == s.unit && s'.tables == s.tables && |s'.threads| == |s.threads|
    ensures s'.threads[t] == Storing(Mine(s.tables[t], 0, 1), 0) && s'.threads[u] == Storing(Mine(s.tables[u], 2, 3), 0)
    ensures s.tables[t].Usable? ==>
          0 in s'.heap && 1 in s'.heap && s'.heap[0] == s.tables[t].lines && s'.heap[1] == s.tables[t].functions
    ensures s.tables[u].Usable? ==> 3 in s'.heap && s'.heap[3] == s.tables[u].functions
  {
    assert s.threads[t].Start? && s.threads[u].Start?;
    hide Leads;
    LeadsNone(s);
    LeadsMore(s, [], s, t, Load);
    var s1 := Apply(s, t, Load);
    run := [] + [(t, Load)];
    LeadsMore(s, run, s1, u, Load);
    var s2 := Apply(s1, u, Load);
    run := run + [(u, Load)];
    LeadsMore(s, run, s2, t, ReadData(0, 1));
    var s3 := Apply(s2, t, ReadData(0, 1));
    run := run + [(t, ReadData(0, 1))];
    LeadsMore(s, run, s3, u, ReadData(2, 3));
    s' := Apply(s3, u, ReadData(2, 3));
    run := run + [(u, ReadData(2, 3))];
  }

  lemma LeadsNone(s: State)
    ensures Leads(s, [], s)
  {
  }

  /** Thread t goes on to store all four fields. */
  lemma StoresAll(s: State, t: nat, d: Data, run0: seq<(nat, Step)>, s0: State) returns (run: seq<(nat, Step)>,
      s': State)
    requires Leads(s0, run0, s) && t < |s.threads| == |s.tables| && d.Usable?
        && s.threads[t] == Storing(Mine(d, 0, 1), 0)
    ensures Leads(s0, run, s') && s'.unit == Mine(d, 0, 1) && s'.heap == s.heap && s'.tables == s.tables
    ensures s'.threads == s.threads[t := LoadLineCount(At(0))]
  {
    hide Leads;
    var m := Mine(d, 0, 1);
    LeadsMore(s0, run0, s, t, Store);
    var s1 := Apply(s, t, Store);
    run := run0 + [(t, Store)];
    LeadsMore(s0, run, s1, t, Store);
    var s2 := Apply(s1, t, Store);
    run := run + [(t, Store)];
    LeadsMore(s0, run, s2, t, Store);
    var s3 := Apply(s2, t, Store);
    run := run + [(t, Store)];
    LeadsMore(s0, run, s3, t, Store);
    s' := Apply(s3, t, Store);
    run := run + [(t, Store)];
    assert s'.threads == s.threads[t := LoadLineCount(At(0))];
  }

  /** Thread t loads the counts and the function table. */
  lemma LoadsAll(s: State, t: nat, run0: seq<(nat, Step)>, s0: State) returns (run: seq<(nat, Step)>, s': State)
    requires Leads(s0, run0, s) && t < |s.threads| == |s.tables| && s.threads[t] == LoadLineCount(At(0))
    ensures Leads(s0, run, s') && s'.heap == s.heap && |s'.threads| == |s.threads|
    ensures s'.threads[t] == Got(if s.unit.functionCount == 0 then Fields(At(0), s.unit.lineCount, Null, 0)
                                 else Fields(At(0), s.unit.lineCount, s.unit.functions, s.unit.functionCount))
  {
    hide Leads;
    LeadsMore(s0, run0, s, t, Load);
    var s1 := Apply(s, t, Load);
    run := run0 + [(t, Load)];
    LeadsMore(s0, run, s1, t, Load);
    s' := Apply(s1, t, Load);
    run := run + [(t, Load)];
    if s.unit.functionCount != 0 {
      LeadsMore(s0, run, s', t, Load);
      s' := Apply(s', t, Load);
      run := run + [(t, Load)];
    }
  }

  /** If two threads would read tables of different sizes, there is an interleaving in which
      one of them ends up with a table and the count of another. */
  lemma DifferentSizesRace(s: State, t: nat, u: nat) returns (run: seq<(nat, Step)>, s': State)
    requires Init(s) && t < |s.threads| && u < |s.threads| && t != u && s.tables[t].Usable?
    requires var d, e := s.tables[t], s.tables[u];
             e.Unusable? || |e.lines| != |d.lines| || |e.functions| < |d.functions|
    ensures Leads(s, run, s') && t < |s'.threads| && s'.threads[t].Got? && !Consistent(s'.heap, s'.threads[t].seen)
  {
    hide Leads;
    var d, e := s.tables[t], s.tables[u];
    var run1, s1 := BothRead(s, t, u);
    var run2, s2 := StoresAll(s1, t, d, run1, s);
    assert s2.threads[u] == Storing(Mine(e, 2, 3), 0);
    LeadsMore(s, run2, s2, u, Store);
    var s3 := Apply(s2, u, Store);
    var run3 := run2 + [(u, Store)];
    assert s3.threads[t] == LoadLineCount(At(0));
    if e.Usable? && |e.lines| == |d.lines| {
      LeadsMore(s, run3, s3, u, Store);
      s3 := Apply(s3, u, Store);
      run3 := run3 + [(u, Store)];
      assert s3.threads[t] == LoadLineCount(At(0));
      assert s3.unit.functions == Mine(e, 2, 3).functions;
    }
    run, s' := LoadsAll(s3, t, run3, s);
  }

  /** No thread, in any interleaving, gets tables that do not fit their counts. */
  ghost predicate AlwaysConsistent(s: State) {
    forall run, s', t: nat :: Leads(s, run, s') && t < |s'.threads| && s'.threads[t].Got? ==>
          Consistent(s'.heap, s'.threads[t].seen)
  }

  /** The stores need no lock exactly when all threads that may race read tables of the same
      sizes. */
  lemma ConsistentExactly(s: State)
    requires Init(s)
    ensures AlwaysConsistent(s) <==> exists n, m :: SameCounts(s.tables, n, m)
  {
    if n, m :| SameCounts(s.tables, n, m) {
      forall run, s', t: nat | Leads(s, run, s') && t < |s'.threads| && s'.threads[t].Got?
        ensures Consistent(s'.heap, s'.threads[t].seen)
      {
        PublishedConsistently(s, n, m, run, s', t);
      }
    } else {
      var t, u := DifferentTables(s.tables);
      var run, s' := DifferentSizesRace(s, t, u);
      hide Leads;
      assert !Consistent(s'.heap, s'.threads[t].seen);
    }
  }

  lemma DifferentTables(tables: seq<Data>) returns (t: nat, u: nat)
    requires forall n, m :: !SameCounts(tables, n, m)
    requires forall i :: 0 <= i < |tables| && tables[i].Usable? ==> tables[i].lines != []
    ensures t < |tables| && u < |tables| && t != u && tables[t].Usable?
    ensures tables[u].Unusable? || |tables[u].lines| != |tables[t].lines| || |tables[u].functions| < |tables[t].functions|
  {
    assert !SameCounts(tables, 0, 0);
    var d := tables[0];
    var n, m := if d.Usable? then |d.lines| else 0, if d.Usable? then |d.functions| else 0;
    assert !SameCounts(tables, n, m);
    u :| 0 <= u < |tables| && !Counts(tables[u], n, m);
    t := 0;
    if d.Unusable? || (tables[u].Usable? && |tables[u].lines| == n && |tables[u].functions| > m) {
      t, u := u, t;
    }
  }
}
