/**
 The list that modules are added to by any number of threads while others read it: walk to
 the end, then compare and swap the null pointer found there; on failure start again.
 */
module CasList {
  import opened Wrappers

  type Node = nat

  /** A place that holds a pointer: the head of the list, or the next field of a node. */
  datatype Cell = Head | NextOf(node: Node)

  datatype Pc =
    | Idle
    | Walk(pp: Cell, node: Node)
    | Swap(pp: Cell, node: Node)
    | Read(pp: Cell, seen: seq<Node>, before: set<Node>)
    | Stopped(seen: seq<Node>, before: set<Node>, all: bool)
  {
    predicate Appends() {
      Walk? || Swap?
    }
  }

  /** mem has the pointers.  done, and before in a reader, are history: the completed appends,
      in order, and those that were completed when the reader began. */
  datatype State = State(mem: map<Cell, Option<Node>>, threads: seq<Pc>, done: seq<Node>)

  // ----- steps

  datatype Step = BeginAppend(node: Node) | Load | CompareAndSwap | BeginRead | ReadNext(found: bool) | Leave

  ghost predicate Enabled(s: State, t: nat, step: Step)
    requires t < |s.threads|
  {
    var pc := s.threads[t];
    match step
    case BeginAppend(node) => pc.Idle? && NextOf(node) !in s.mem
    case Load => pc.Walk? && pc.pp in s.mem
    case CompareAndSwap => pc.Swap? && pc.pp in s.mem
    case BeginRead => pc.Idle?
    case ReadNext(_) => pc.Read? && pc.pp in s.mem
    case Leave => pc.Stopped?
  }

  function Go(s: State, t: nat, pc: Pc): State
    requires t < |s.threads|
  {
    s.(threads := s.threads[t := pc])
  }

  ghost function Apply(s: State, t: nat, step: Step): State
    requires t < |s.threads| && Enabled(s, t, step)
  {
    var pc := s.threads[t];
    match step
    case BeginAppend(node) => Go(s, t, Walk(Head, node)).(mem := s.mem[NextOf(node) := None])
    case Load =>
      (match s.mem[pc.pp]
       case None => Go(s, t, Swap(pc.pp, pc.node))
       case Some(p) => Go(s, t, Walk(NextOf(p), pc.node)))
    case CompareAndSwap =>
      if s.mem[pc.pp].None? then Go(s, t, Idle).(mem := s.mem[pc.pp := Some(pc.node)], done := s.done + [pc.node])
      else Go(s, t, Walk(Head, pc.node))
    case BeginRead => Go(s, t, Read(Head, [], set x | x in s.done))
    case ReadNext(found) =>
      (match s.mem[pc.pp]
       case None => Go(s, t, Stopped(pc.seen, pc.before, true))
       case Some(p) =>
         if found then Go(s, t, Stopped(pc.seen + [p], pc.before, false))
         else Go(s, t, Read(NextOf(p), pc.seen + [p], pc.before)))
    case Leave => Go(s, t, Idle)
  }

  ghost predicate Init(s: State) {
    s.mem == map[Head := None] && s.done == [] && forall t :: 0 <= t < |s.threads| ==> s.threads[t].Idle?
  }

  // ----- what holds in every state

  /** The cell behind the first i nodes. */
  function CellAt(list: seq<Node>, i: nat): Cell
    requires i <= |list|
  {
    if i == 0 then Head else NextOf(list[i - 1])
  }

  ghost predicate Distinct(list: seq<Node>) {
    forall i, j :: 0 <= i < j < |list| ==> list[i] != list[j]
  }

  /** From the head the pointers lead through exactly these nodes, each once, to null. */
  ghost predicate Chain(mem: map<Cell, Option<Node>>, list: seq<Node>) {
    && Distinct(list)
    && forall i: nat :: i <= |list| ==>
         CellAt(list, i) in mem && mem[CellAt(list, i)] == if i < |list| then Some(list[i]) else None
  }

  ghost predicate OnList(list: seq<Node>, pp: Cell) {
    exists k: nat :: k <= |list| && pp == CellAt(list, k)
  }

  /** A reader at pp has seen all nodes before pp. */
  ghost predicate ReadUpTo(list: seq<Node>, pp: Cell, seen: seq<Node>) {
    |seen| <= |list| && seen == list[..|seen|] && pp == CellAt(list, |seen|)
  }

  ghost predicate ThreadOk(mem: map<Cell, Option<Node>>, list: seq<Node>, pc: Pc) {
    match pc
    case Idle => true
    case Walk(pp, node) => OnList(list, pp) && node !in list && NextOf(node) in mem && mem[NextOf(node)] == None
    case Swap(pp, node) => OnList(list, pp) && node !in list && NextOf(node) in mem && mem[NextOf(node)] == None
    case Read(pp, seen, before) => ReadUpTo(list, pp, seen) && forall x :: x in before ==> x in list
    case Stopped(seen, before, all) => seen <= list && (all ==> forall x :: x in before ==> x in seen)
  }

  ghost predicate Inv(s: State) {
    && Chain(s.mem, s.done)
    && (forall t :: 0 <= t < |s.threads| ==> ThreadOk(s.mem, s.done, s.threads[t]))
    && (forall t, u :: 0 <= t < u < |s.threads| && s.threads[t].Appends() && s.threads[u].Appends() ==>
          s.threads[t].node != s.threads[u].node)
  }

  // ----- every step keeps it

  lemma CellAtDistinct(list: seq<Node>, i: nat, j: nat)
    requires Distinct(list) && i <= |list| && j <= |list| && CellAt(list, i) == CellAt(list, j)
    ensures i == j
  {
  }

  /** A pointer that is null and on the list is the last one. */
  lemma NullIsLast(mem: map<Cell, Option<Node>>, list: seq<Node>, pp: Cell)
    requires Chain(mem, list) && OnList(list, pp)
    ensures pp in mem && (mem[pp] == None <==> pp == CellAt(list, |list|))
    ensures mem[pp].Some? ==> mem[pp].value in list && OnList(list, NextOf(mem[pp].value))
  {
    var k: nat :| k <= |list| && pp == CellAt(list, k);
    if k < |list| {
      assert mem[pp] == Some(list[k]);
      assert NextOf(list[k]) == CellAt(list, k + 1);
    }
  }

  lemma OnLonger(list: seq<Node>, x: Node, pp: Cell)
    requires OnList(list, pp)
    ensures OnList(list + [x], pp)
  {
    var k: nat :| k <= |list| && pp == CellAt(list, k);
    assert pp == CellAt(list + [x], k);
  }

  lemma ChainGrowsAt(mem: map<Cell, Option<Node>>, list: seq<Node>, x: Node, i: nat)
    requires Chain(mem, list) && x !in list && NextOf(x) in mem && mem[NextOf(x)] == None && i <= |list| + 1
    ensures var longer, mem' := list + [x], mem[CellAt(list, |list|) := Some(x)];
            CellAt(longer, i) in mem' && mem'[CellAt(longer, i)] == if i < |longer| then Some(longer[i]) else None
  {
    hide Chain;
    var longer := list + [x];
    if i <= |list| {
      assert CellAt(longer, i) == CellAt(list, i);
      CellIn(mem, list, i);
      if i < |list| && CellAt(list, i) == CellAt(list, |list|) {
        ChainDistinct(mem, list);
        CellAtDistinct(list, i, |list|);
      }
    } else {
      assert CellAt(longer, i) == NextOf(x) != CellAt(list, |list|);
    }
  }

  lemma ChainDistinct(mem: map<Cell, Option<Node>>, list: seq<Node>)
    requires Chain(mem, list)
    ensures Distinct(list)
  {
  }

  lemma ChainGrows(mem: map<Cell, Option<Node>>, list: seq<Node>, x: Node)
    requires Chain(mem, list) && x !in list && NextOf(x) in mem && mem[NextOf(x)] == None
    ensures Chain(mem[CellAt(list, |list|) := Some(x)], list + [x])
  {
    var longer, mem' := list + [x], mem[CellAt(list, |list|) := Some(x)];
    forall i: nat | i <= |longer|
      ensures CellAt(longer, i) in mem' && mem'[CellAt(longer, i)] == if i < |longer| then Some(longer[i]) else None
    {
      ChainGrowsAt(mem, list, x, i);
    }
  }

  lemma ThreadOkGrows(mem: map<Cell, Option<Node>>, list: seq<Node>, x: Node, pc: Pc)
    requires Chain(mem, list) && ThreadOk(mem, list, pc) && x !in list && (pc.Appends() ==> pc.node != x)
    ensures ThreadOk(mem[CellAt(list, |list|) := Some(x)], list + [x], pc)
  {
    if pc.Appends() {
      OnLonger(list, x, pc.pp);
      assert NextOf(pc.node) != CellAt(list, |list|);
    } else if pc.Read? {
      assert pc.pp == CellAt(list + [x], |pc.seen|);
    }
  }

  lemma CellIn(mem: map<Cell, Option<Node>>, list: seq<Node>, i: nat)
    requires Chain(mem, list) && i <= |list|
    ensures CellAt(list, i) in mem && mem[CellAt(list, i)] == if i < |list| then Some(list[i]) else None
  {
  }

  lemma ChainOther(mem: map<Cell, Option<Node>>, list: seq<Node>, x: Node)
    requires Chain(mem, list) && NextOf(x) !in mem
    ensures x !in list && Chain(mem[NextOf(x) := None], list)
  {
    if x in list {
      var i: nat :| i < |list| && list[i] == x;
      CellIn(mem, list, i + 1);
    }
    var mem' := mem[NextOf(x) := None];
    forall i: nat | i <= |list|
      ensures CellAt(list, i) in mem' && mem'[CellAt(list, i)] == if i < |list| then Some(list[i]) else None
    {
      assert CellAt(list, i) in mem;
    }
  }

  /** Only thread t moves, and the pointers stay. */
  lemma StepOne(s: State, t: nat, pc: Pc)
    requires Inv(s) && t < |s.threads| && ThreadOk(s.mem, s.done, pc)
    requires pc.Appends() ==> s.threads[t].Appends() && s.threads[t].node == pc.node
    ensures Inv(Go(s, t, pc))
  {
  }

  lemma StepBegin(s: State, t: nat, node: Node)
    requires Inv(s) && t < |s.threads| && Enabled(s, t, BeginAppend(node))
    ensures Inv(Apply(s, t, BeginAppend(node)))
  {
    var s' := Apply(s, t, BeginAppend(node));
    ChainOther(s.mem, s.done, node);
    assert Head == CellAt(s.done, 0);
    forall u | 0 <= u < |s'.threads| ensures ThreadOk(s'.mem, s'.done, s'.threads[u]) {
      if u != t {
        assert ThreadOk(s.mem, s.done, s.threads[u]);
      }
    }
  }

  lemma StepSwap(s: State, t: nat)
    requires Inv(s) && t < |s.threads| && Enabled(s, t, CompareAndSwap) && s.mem[s.threads[t].pp].None?
    ensures Inv(Apply(s, t, CompareAndSwap))
  {
    var s', pc := Apply(s, t, CompareAndSwap), s.threads[t];
    assert ThreadOk(s.mem, s.done, pc);
    NullIsLast(s.mem, s.done, pc.pp);
    ChainGrows(s.mem, s.done, pc.node);
    forall u | 0 <= u < |s'.threads| ensures ThreadOk(s'.mem, s'.done, s'.threads[u]) {
      if u != t {
        ThreadOkGrows(s.mem, s.done, pc.node, s.threads[u]);
      }
    }
  }

  lemma StepRead(s: State, t: nat, found: bool)
    requires Inv(s) && t < |s.threads| && Enabled(s, t, ReadNext(found))
    ensures Inv(Apply(s, t, ReadNext(found)))
    ensures s.mem[s.threads[t].pp].None? ==> s.threads[t].seen == s.done
  {
    ThreadIsOk(s, t);
    hide Inv;
    ReadOk(s.mem, s.done, s.threads[t]);
    StepOne(s, t, Apply(s, t, ReadNext(found)).threads[t]);
  }

  lemma ThreadIsOk(s: State, t: nat)
    requires Inv(s) && t < |s.threads|
    ensures ThreadOk(s.mem, s.done, s.threads[t]) && Chain(s.mem, s.done)
  {
  }

  lemma ReadOk(mem: map<Cell, Option<Node>>, list: seq<Node>, pc: Pc)
    requires Chain(mem, list) && pc.Read? && ThreadOk(mem, list, pc) && pc.pp in mem
    ensures mem[pc.pp].None? ==> pc.seen == list && ThreadOk(mem, list, Stopped(pc.seen, pc.before, true))
    ensures mem[pc.pp].Some? ==> ThreadOk(mem, list, Read(NextOf(mem[pc.pp].value), pc.seen + [mem[pc.pp].value], pc.before))
                                 && ThreadOk(mem, list, Stopped(pc.seen + [mem[pc.pp].value], pc.before, false))
  {
    hide Chain;
    var k := |pc.seen|;
    CellIn(mem, list, k);
    if k < |list| {
      assert pc.seen + [list[k]] == list[..k + 1];
      assert ReadUpTo(list, NextOf(list[k]), pc.seen + [list[k]]);
    } else {
      assert list[..k] == list;
    }
  }

  /** Every step keeps the invariant, and the list only grows, and only at its end. */
  lemma StepKeepsInv(s: State, t: nat, step: Step)
    requires Inv(s) && t < |s.threads| && Enabled(s, t, step)
    ensures Inv(Apply(s, t, step)) && s.done <= Apply(s, t, step).done
  {
    var pc := s.threads[t];
    assert ThreadOk(s.mem, s.done, pc);
    assert Head == CellAt(s.done, 0);
    match step
    case BeginAppend(node) => StepBegin(s, t, node);
    case Load =>
      NullIsLast(s.mem, s.done, pc.pp);
      StepOne(s, t, Apply(s, t, step).threads[t]);
    case CompareAndSwap =>
      if s.mem[pc.pp].None? {
        StepSwap(s, t);
      } else {
        StepOne(s, t, Walk(Head, pc.node));
      }
    case BeginRead => StepOne(s, t, Read(Head, [], set x | x in s.done));
    case ReadNext(found) => StepRead(s, t, found);
    case Leave => StepOne(s, t, Idle);
  }

  // ----- runs

  ghost predicate Next(s: State, s': State) {
    exists t: nat, step :: t < |s.threads| && Enabled(s, t, step) && s' == Apply(s, t, step)
  }

  ghost predicate Run(tr: seq<State>) {
    |tr| > 0 && Init(tr[0]) && forall i :: 0 <= i < |tr| - 1 ==> Next(tr[i], tr[i + 1])
  }

  lemma {:induction false} RunsKeepInv(tr: seq<State>, i: nat, j: nat)
    requires Run(tr) && i <= j < |tr|
    ensures Inv(tr[i]) && Inv(tr[j]) && tr[i].done <= tr[j].done
    decreases j
  {
    hide Inv; hide Apply; hide Enabled;
    if j == 0 {
      InitInv(tr[0]);
    } else {
      var k := if i < j then i else j - 1;
      RunsKeepInv(tr, k, j - 1);
      assert Next(tr[j - 1], tr[j]);
      var t: nat, step :| t < |tr[j - 1].threads| && Enabled(tr[j - 1], t, step) && tr[j] == Apply(tr[j - 1], t, step);
      StepKeepsInv(tr[j - 1], t, step);
    }
  }

  lemma InitInv(s: State)
    requires Init(s)
    ensures Inv(s)
  {
  }

  /** The main theorem.  In every interleaving of appenders and readers the pointers form a
      list that ends in null; every completed append is on it, exactly once, in order of
      completion; and what a reader has seen at its end is a prefix that has every node whose
      append was completed when the reader began. */
  lemma ListIsSafe(tr: seq<State>, i: nat, j: nat)
    requires Run(tr) && i <= j < |tr|
    ensures Chain(tr[j].mem, tr[j].done) && tr[i].done <= tr[j].done
    ensures forall t: nat :: t < |tr[j].threads| && tr[j].threads[t].Stopped? ==>
              var pc := tr[j].threads[t];
              pc.seen <= tr[j].done && (pc.all ==> forall x :: x in pc.before ==> x in pc.seen)
  {
    RunsKeepInv(tr, i, j);
    forall t: nat | t < |tr[j].threads| ensures ThreadOk(tr[j].mem, tr[j].done, tr[j].threads[t]) {
    }
  }

  /** The pointers determine the list. */
  lemma {:induction false} ChainUnique(mem: map<Cell, Option<Node>>, a: seq<Node>, b: seq<Node>, k: nat)
    requires Chain(mem, a) && Chain(mem, b) && k <= |a|
    ensures k <= |b| && a[..k] == b[..k]
    ensures k == |a| ==> a == b
    decreases k
  {
    hide Chain;
    if k > 0 {
      ChainUnique(mem, a, b, k - 1);
      ChainAgree(mem, a, b, k - 1);
      assert a[..k] == a[..k - 1] + [a[k - 1]] && b[..k] == b[..k - 1] + [b[k - 1]];
    }
    ChainAgree(mem, a, b, k);
  }

  lemma ChainAgree(mem: map<Cell, Option<Node>>, a: seq<Node>, b: seq<Node>, k: nat)
    requires Chain(mem, a) && Chain(mem, b) && k <= |a| && k <= |b| && a[..k] == b[..k]
    ensures k < |a| <==> k < |b|
    ensures k < |a| ==> a[k] == b[k]
  {
    CellIn(mem, a, k);
    CellIn(mem, b, k);
    hide Chain;
    if k > 0 {
      assert a[..k][k - 1] == b[..k][k - 1];
    }
  }

  // ----- progress

  /** A swap fails only when another append was completed since the null was loaded. */
  lemma FailureMeansProgress(s0: State, s1: State, t: nat)
    requires Inv(s0) && Inv(s1) && s0.done <= s1.done && t < |s0.threads| && t < |s1.threads|
    requires s0.threads[t].Swap? && s1.threads[t] == s0.threads[t]
    requires s0.threads[t].pp in s0.mem && s0.mem[s0.threads[t].pp] == None
    requires s1.threads[t].pp in s1.mem && s1.mem[s1.threads[t].pp] != None
    ensures |s0.done| < |s1.done|
  {
    var pp := s0.threads[t].pp;
    assert ThreadOk(s0.mem, s0.done, s0.threads[t]);
    assert ThreadOk(s1.mem, s1.done, s1.threads[t]);
    NullIsLast(s0.mem, s0.done, pp);
    NullIsLast(s1.mem, s1.done, pp);
    assert s0.done == s1.done[..|s0.done|];
  }

  /** Thread t takes n steps of its append, and no other thread takes any. */
  ghost predicate Alone(s: State, t: nat, n: nat, s': State)
    decreases n
  {
    if n == 0 then s == s'
    else
      && t < |s.threads| && s.threads[t].Appends() && s.threads[t].pp in s.mem
      && Alone(Apply(s, t, if s.threads[t].Walk? then Load else CompareAndSwap), t, n - 1, s')
  }

  /** A thread that runs alone from behind the first k nodes gets its node onto the list; this
      is also how the list is used without threads. */
  lemma {:induction false} AloneFinishes(s: State, t: nat, k: nat) returns (s': State)
    requires Inv(s) && t < |s.threads| && k <= |s.done| && s.threads[t].Walk? && s.threads[t].pp == CellAt(s.done, k)
    ensures Alone(s, t, |s.done| - k + 2, s')
    ensures Inv(s') && s'.done == s.done + [s.threads[t].node] && s'.threads == s.threads[t := Idle]
    decreases |s.done| - k
  {
    hide Inv; hide Alone; hide Apply; hide Enabled;
    var node := s.threads[t].node;
    LoadAt(s, t, k);
    StepKeepsInv(s, t, Load);
    var s1 := Apply(s, t, Load);
    if k < |s.done| {
      s' := AloneFinishes(s1, t, k + 1);
      AloneMore(s, t, |s.done| - k + 1, s');
    } else {
      SwapAtEnd(s1, t);
      StepKeepsInv(s1, t, CompareAndSwap);
      s' := Apply(s1, t, CompareAndSwap);
      AloneNone(s', t);
      AloneMore(s1, t, 0, s');
      AloneMore(s, t, 1, s');
    }
  }

  lemma AloneNone(s: State, t: nat)
    ensures Alone(s, t, 0, s)
  {
  }

  lemma AloneMore(s: State, t: nat, n: nat, s': State)
    requires t < |s.threads| && s.threads[t].Appends() && s.threads[t].pp in s.mem
    requires Alone(Apply(s, t, if s.threads[t].Walk? then Load else CompareAndSwap), t, n, s')
    ensures Alone(s, t, n + 1, s')
  {
  }

  lemma LoadAt(s: State, t: nat, k: nat)
    requires Inv(s) && t < |s.threads| && k <= |s.done| && s.threads[t].Walk? && s.threads[t].pp == CellAt(s.done, k)
    ensures s.threads[t].pp in s.mem && Enabled(s, t, Load)
    ensures var node := s.threads[t].node;
            Apply(s, t, Load)
            == Go(s, t, if k < |s.done| then Walk(CellAt(s.done, k + 1), node) else Swap(CellAt(s.done, k), node))
  {
    ThreadIsOk(s, t);
    CellIn(s.mem, s.done, k);
  }

  lemma SwapAtEnd(s: State, t: nat)
    requires Inv(s) && t < |s.threads| && s.threads[t].Swap? && s.threads[t].pp == CellAt(s.done, |s.done|)
    ensures s.threads[t].pp in s.mem && Enabled(s, t, CompareAndSwap)
    ensures Apply(s, t, CompareAndSwap).done == s.done + [s.threads[t].node]
    ensures Apply(s, t, CompareAndSwap).threads == s.threads[t := Idle]
  {
    ThreadIsOk(s, t);
    CellIn(s.mem, s.done, |s.done|);
  }
}
