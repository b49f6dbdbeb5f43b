/**
 Where every byte of mapped memory is: held by a thread, on the list, or leaked; and what leaks.
 */
module AllocatorBytes {
  import opened Wrappers
  import opened FreeList
  import opened Allocator

  // ----- who owns a byte

  ghost predicate InHeld(held: set<Block>, x: int) {
    exists b :: b in held && Within(x, b)
  }

  /** Some thread other than t holds the byte. */
  ghost predicate HeldElsewhere(s: State, t: nat, x: int) {
    exists u :: 0 <= u < |s.threads| && u != t && InHeld(s.threads[u].held, x)
  }

  /** A thread holds the byte, or it is on the list. */
  ghost predicate Owned(s: State, x: int) {
    OnList(s.freelist, x) || exists u :: 0 <= u < |s.threads| && InHeld(s.threads[u].held, x)
  }

  /** Memory is accounted for: what is mapped is owned or lost, and nothing is both. */
  ghost predicate Accounts(s: State, lost: set<nat>) {
    forall x: nat :: (x in s.mapped <==> Owned(s, x) || x in lost) && !(Owned(s, x) && x in lost)
  }

  /** What a step leaks: a block whose thread does not get the lock, or what the list drops. */
  ghost function Leak(s: State, t: nat, step: Step): Option<Block>
    requires t < |s.threads| && Enabled(s, t, step)
  {
    var pc := s.threads[t].pc;
    match step
    case FreeLock => if s.lock then Some(pc.b) else None
    case FreeInsert => InsertDrop(s.freelist, pc.b)
    case AllocSearch =>
      (match FirstFit(s.freelist, pc.size)
       case None => None
       case Some(k) => TakeDrop(s.freelist, k, pc.size))
    case _ => None
  }

  ghost function LeakBytes(leak: Option<Block>): set<nat> {
    if leak.Some? then Bytes(leak.value) else {}
  }

  /** Nothing leaks but a block freed while another thread has the lock, a piece too small for a
      header, or a block no larger than any of sixteen that stay on the list. */
  lemma LeakExplained(s: State, t: nat, step: Step)
    requires Inv(s) && t < |s.threads| && Enabled(s, t, step) && Leak(s, t, step).Some?
    ensures || (step.FreeLock? && s.lock)
            || MayDrop(Apply(s, t, step).freelist, Leak(s, t, step))
  {
    hide Insert; hide Take; hide InsertDrop; hide TakeDrop; hide MayDrop;
    var pc := s.threads[t].pc;
    ListBounded(s);
    hide Inv;
    if step.FreeInsert? {
      InsertConserves(s.freelist, pc.b, 0);
    } else if step.AllocSearch? {
      TakeConserves(s.freelist, FirstFit(s.freelist, pc.size).value, pc.size, 0);
    }
  }

  lemma ListBounded(s: State)
    requires Inv(s)
    ensures Bounded(s.freelist) && AllDisjoint(s.freelist)
  {
  }

  // ----- steps of one thread

  lemma OwnedBy(s: State, t: nat, x: int)
    requires t < |s.threads|
    ensures Owned(s, x) <==> OnList(s.freelist, x) || InHeld(s.threads[t].held, x) || HeldElsewhere(s, t, x)
  {
  }

  /** Only thread t changes. */
  ghost predicate OthersSame(s: State, s': State, t: nat) {
    |s'.threads| == |s.threads| && forall u :: 0 <= u < |s.threads| && u != t ==> s'.threads[u] == s.threads[u]
  }

  lemma ElsewhereSame(s: State, s': State, t: nat, x: int)
    requires OthersSame(s, s', t)
    ensures HeldElsewhere(s', t, x) <==> HeldElsewhere(s, t, x)
  {
    hide InHeld;
  }

  lemma Apart2(a: Block, b: Block, x: int)
    requires Disjoint(a, b)
    ensures !(Within(x, a) && Within(x, b))
  {
  }

  /** A byte of a block that thread t holds is nowhere else. */
  lemma HeldOnce(s: State, t: nat, b: Block, x: int)
    requires Inv(s) && t < |s.threads| && b in s.threads[t].held && Within(x, b)
    ensures !OnList(s.freelist, x) && !InHeld(s.threads[t].held - {b}, x) && !HeldElsewhere(s, t, x)
  {
    hide Covers; hide PcOk; hide Locked; hide PageOk; hide Disjoint; hide ListInv; hide Within;
    assert ThreadInv(s, t);
    if i :| 0 <= i < |s.freelist| && Within(x, s.freelist[i]) {
      assert s.freelist[i] in s.freelist;
      Apart2(b, s.freelist[i], x);
    }
    if a :| a in s.threads[t].held - {b} && Within(x, a) {
      Apart2(a, b, x);
    }
    if u :| 0 <= u < |s.threads| && u != t && InHeld(s.threads[u].held, x) {
      var a :| a in s.threads[u].held && Within(x, a);
      OtherThread(s, t, u);
      Apart2(b, a, x);
    }
  }

  /** Disjoint blocks of a list have no byte in common. */
  lemma OnceInList(list: seq<Block>, k: nat, x: int)
    requires AllDisjoint(list) && Bounded(list) && k < |list| && Within(x, list[k])
    ensures !OnList(Without(list, k), x)
  {
    hide Disjoint; hide Within; hide Bounded;
    WithoutMembers(list, k);
    var rest := Without(list, k);
    if i :| 0 <= i < |rest| && Within(x, rest[i]) {
      assert rest[i] in rest;
      Apart2(list[k], rest[i], x);
    }
  }

  /** No thread holds a byte of a block of the list. */
  lemma ListedNotHeld(s: State, p: Block, x: int)
    requires Inv(s) && p in s.freelist && Within(x, p)
    ensures forall u :: 0 <= u < |s.threads| ==> !InHeld(s.threads[u].held, x)
  {
    hide Covers; hide PcOk; hide Locked; hide PageOk; hide Disjoint; hide Within; hide ListInv;
    forall u | 0 <= u < |s.threads| ensures !InHeld(s.threads[u].held, x) {
      assert ThreadInv(s, u);
      if a :| a in s.threads[u].held && Within(x, a) {
        Apart2(a, p, x);
      }
    }
  }

  lemma HeldWithout(held: set<Block>, b: Block, x: int)
    requires b in held
    ensures InHeld(held, x) <==> InHeld(held - {b}, x) || Within(x, b)
  {
    hide Within;
    if a :| a in held && Within(x, a) && a != b {
      assert a in held - {b};
    }
  }

  lemma HeldWith(held: set<Block>, b: Block, x: int)
    ensures InHeld(held + {b}, x) <==> InHeld(held, x) || Within(x, b)
  {
    hide Within;
    if a :| a in held && Within(x, a) {
      assert a in held + {b};
    }
    assert b in held + {b};
  }

  lemma BytesAre(b: Block, x: nat)
    ensures x in Bytes(b) <==> Within(x, b)
  {
  }

  /** A step that moves no memory. */
  lemma PcAccounts(s: State, s': State, t: nat, lost: set<nat>)
    requires Accounts(s, lost) && t < |s.threads| && OthersSame(s, s', t)
    requires s'.threads[t].held == s.threads[t].held && s'.freelist == s.freelist && s'.mapped == s.mapped
    ensures Accounts(s', lost)
  {
    hide OnList; hide InHeld;
    forall x: nat ensures Owned(s', x) <==> Owned(s, x) {
      OwnedBy(s, t, x);
      OwnedBy(s', t, x);
      ElsewhereSame(s, s', t, x);
    }
  }

  /** Thread t lets go of a block: it is leaked, or it is unmapped. */
  lemma ShrinkAccounts(s: State, s': State, t: nat, b: Block, lost: set<nat>, leaks: bool)
    requires Inv(s) && Accounts(s, lost) && t < |s.threads| && OthersSame(s, s', t) && b in s.threads[t].held
    requires s'.threads[t].held == s.threads[t].held - {b} && s'.freelist == s.freelist
    requires s'.mapped == if leaks then s.mapped else s.mapped - Bytes(b)
    ensures Accounts(s', if leaks then lost + Bytes(b) else lost)
  {
    hide OnList; hide InHeld; hide Within; hide Inv; hide Bytes;
    forall x: nat
      ensures Owned(s', x) <==> Owned(s, x) && !Within(x, b)
      ensures Within(x, b) ==> Owned(s, x)
      ensures x in Bytes(b) <==> Within(x, b)
    {
      OwnedBy(s, t, x);
      OwnedBy(s', t, x);
      ElsewhereSame(s, s', t, x);
      HeldWithout(s.threads[t].held, b, x);
      BytesAre(b, x);
      if Within(x, b) {
        HeldOnce(s, t, b, x);
      }
    }
  }

  lemma DropIsBlock(list: seq<Block>, b: Block)
    requires InsertDrop(list, b) == Some(b)
    ensures Insert(list, b) == list
  {
    hide Smallest;
  }

  lemma DropIsListed(list: seq<Block>, b: Block, d: Block)
    requires InsertDrop(list, b) == Some(d) && d != b
    ensures |list| >= MAX_ENTRIES && d == list[Smallest(list)]
    ensures Insert(list, b) == [b] + Without(list, Smallest(list))
  {
    hide Smallest;
  }

  /** What is dropped when a block is put on the list is not on it. */
  lemma DroppedOnce(list: seq<Block>, b: Block, x: int)
    requires AllDisjoint(list) && Bounded(list) && Gone(InsertDrop(list, b), x)
    requires OnList(list, x) ==> !Within(x, b)
    ensures !OnList(Insert(list, b), x)
  {
    hide Within; hide Smallest; hide OnList; hide Insert; hide InsertDrop; hide Without;
    var d := InsertDrop(list, b).value;
    if d == b {
      DropIsBlock(list, b);
    } else {
      DropIsListed(list, b, d);
      var k := Smallest(list);
      OnceInList(list, k, x);
      WithoutBytes(list, k, x);
      FrontBytes(Without(list, k), b, x);
    }
  }

  /** Thread t puts a block on the list. */
  lemma InsertAccounts(s: State, s': State, t: nat, b: Block, lost: set<nat>)
    requires Inv(s) && Accounts(s, lost) && t < |s.threads| && OthersSame(s, s', t) && b in s.threads[t].held
    requires s'.threads[t].held == s.threads[t].held - {b} && s'.freelist == Insert(s.freelist, b)
    requires s'.mapped == s.mapped
    ensures Accounts(s', lost + LeakBytes(InsertDrop(s.freelist, b)))
  {
    ListBounded(s);
    hide OnList; hide InHeld; hide Within; hide Inv; hide Bytes; hide Insert; hide InsertDrop; hide Bounded;
    var d := InsertDrop(s.freelist, b);
    forall x: nat
      ensures Owned(s', x) || Gone(d, x) <==> Owned(s, x)
      ensures !(Owned(s', x) && Gone(d, x))
      ensures x in LeakBytes(d) <==> Gone(d, x)
    {
      OwnedBy(s, t, x);
      OwnedBy(s', t, x);
      ElsewhereSame(s, s', t, x);
      HeldWithout(s.threads[t].held, b, x);
      InsertConserves(s.freelist, b, x);
      if d.Some? { BytesAre(d.value, x); }
      if Within(x, b) {
        HeldOnce(s, t, b, x);
      }
      if Gone(d, x) {
        DroppedOnce(s.freelist, b, x);
        if !Within(x, b) {
          OnlyListed(s, t, b, x);
        }
      }
    }
  }

  /** A byte that is on the list is held by no thread. */
  lemma OnlyListed(s: State, t: nat, b: Block, x: int)
    requires Inv(s) && t < |s.threads| && Gone(InsertDrop(s.freelist, b), x) && !Within(x, b)
    ensures !InHeld(s.threads[t].held, x) && !HeldElsewhere(s, t, x)
  {
    hide Within; hide Smallest; hide InHeld; hide Inv; hide Insert; hide InsertDrop; hide Without;
    var d := InsertDrop(s.freelist, b).value;
    DropIsListed(s.freelist, b, d);
    ListedNotHeld(s, d, x);
  }

  /** What is dropped when a block is taken is a part of the old list, and is not handed out. */
  lemma TakenOnce(list: seq<Block>, k: nat, size: nat, x: int)
    requires AllDisjoint(list) && Bounded(list) && k < |list| && list[k].size >= size
    requires Gone(TakeDrop(list, k, size), x)
    ensures OnList(list, x) && !OnList(Take(list, k, size), x) && !Within(x, Front(list[k], size))
  {
    hide Within; hide OnList; hide Insert; hide InsertDrop; hide Without; hide Disjoint; hide Front; hide Back;
    hide Bounded; hide AllDisjoint; hide Smallest;
    var p, rest := list[k], Without(list, k);
    var b := Back(p, size).value;
    WithoutMembers(list, k);
    WithoutBytes(list, k, x);
    PiecesConserve(p, size, x);
    if Within(x, p) {
      OnceInList(list, k, x);
    }
    DroppedOnce(rest, b, x);
    InsertConserves(rest, b, x);
  }

  lemma OnListHeld(s: State, x: int)
    requires Inv(s) && OnList(s.freelist, x)
    ensures forall u :: 0 <= u < |s.threads| ==> !InHeld(s.threads[u].held, x)
  {
    hide Inv; hide Within; hide InHeld;
    var i :| 0 <= i < |s.freelist| && Within(x, s.freelist[i]);
    ListedNotHeld(s, s.freelist[i], x);
  }

  /** Thread t takes a block from the list. */
  lemma TakeAccounts(s: State, s': State, t: nat, k: nat, size: nat, lost: set<nat>)
    requires Inv(s) && Accounts(s, lost) && t < |s.threads| && OthersSame(s, s', t)
    requires k < |s.freelist| && s.freelist[k].size >= size
    requires s'.threads[t].held == s.threads[t].held + {Front(s.freelist[k], size)}
    requires s'.freelist == Take(s.freelist, k, size) && s'.mapped == s.mapped
    ensures Accounts(s', lost + LeakBytes(TakeDrop(s.freelist, k, size)))
  {
    ListBounded(s);
    hide OnList; hide InHeld; hide Within; hide Inv; hide Bytes; hide Take; hide TakeDrop; hide Bounded; hide Front;
    var d, front := TakeDrop(s.freelist, k, size), Front(s.freelist[k], size);
    forall x: nat
      ensures Owned(s', x) || Gone(d, x) <==> Owned(s, x)
      ensures !(Owned(s', x) && Gone(d, x))
      ensures x in LeakBytes(d) <==> Gone(d, x)
    {
      OwnedBy(s, t, x);
      OwnedBy(s', t, x);
      ElsewhereSame(s, s', t, x);
      HeldWith(s.threads[t].held, front, x);
      TakeConserves(s.freelist, k, size, x);
      if d.Some? { BytesAre(d.value, x); }
      if Gone(d, x) {
        TakenOnce(s.freelist, k, size, x);
        OnListHeld(s, x);
      }
    }
  }

  /** Thread t gets fresh pages. */
  lemma MapAccounts(s: State, s': State, t: nat, region: Block, size: nat, lost: set<nat>)
    requires Accounts(s, lost) && t < |s.threads| && OthersSame(s, s', t) && region.size >= size
    requires Outside(s.mapped, region)
    requires var front, back := Front(region, size), Back(region, size);
             s'.threads[t].held == s.threads[t].held + (if back.Some? then {front, back.value} else {front})
    requires s'.freelist == s.freelist && s'.mapped == s.mapped + Bytes(region)
    ensures Accounts(s', lost)
  {
    hide OnList; hide InHeld; hide Within; hide Bytes; hide Front; hide Back;
    var held, front, back := s.threads[t].held, Front(region, size), Back(region, size);
    forall x: nat
      ensures Owned(s', x) <==> Owned(s, x) || Within(x, region)
      ensures x in Bytes(region) <==> Within(x, region)
    {
      OwnedBy(s, t, x);
      OwnedBy(s', t, x);
      ElsewhereSame(s, s', t, x);
      PiecesConserve(region, size, x);
      BytesAre(region, x);
      HeldWith(held, front, x);
      if back.Some? {
        HeldWith(held + {front}, back.value, x);
        assert held + {front} + {back.value} == held + {front, back.value};
      }
    }
  }

  /** Thread t splits one of its blocks. */
  lemma SplitAccounts(s: State, s': State, t: nat, b: Block, n: nat, lost: set<nat>)
    requires Accounts(s, lost) && t < |s.threads| && OthersSame(s, s', t) && b in s.threads[t].held && n <= b.size
    requires s'.threads[t].held == s.threads[t].held - {b} + {Block(b.addr, n), Block(b.addr + n, b.size - n)}
    requires s'.freelist == s.freelist && s'.mapped == s.mapped
    ensures Accounts(s', lost)
  {
    hide OnList; hide InHeld;
    var held, y, z := s.threads[t].held, Block(b.addr, n), Block(b.addr + n, b.size - n);
    forall x: nat ensures Owned(s', x) <==> Owned(s, x) {
      OwnedBy(s, t, x);
      OwnedBy(s', t, x);
      ElsewhereSame(s, s', t, x);
      HeldWithout(held, b, x);
      HeldWith(held - {b}, y, x);
      HeldWith(held - {b} + {y}, z, x);
      assert held - {b} + {y} + {z} == held - {b} + {y, z};
    }
  }

  // ----- every step, every run

  /** Every step keeps the account, with what it leaks. */
  lemma StepAccounts(s: State, t: nat, step: Step, lost: set<nat>)
    requires Inv(s) && Accounts(s, lost) && t < |s.threads| && Enabled(s, t, step)
    ensures Accounts(Apply(s, t, step), lost + LeakBytes(Leak(s, t, step)))
  {
    hide Inv; hide Accounts; hide Take; hide Insert; hide InsertDrop; hide TakeDrop; hide Front; hide Back; hide Bytes;
    hide Outside; hide AskSize;
    var s', pc := Apply(s, t, step), s.threads[t].pc;
    assert lost + {} == lost;
    match step
    case StartAlloc(_) => PcAccounts(s, s', t, lost);
    case AllocLock => PcAccounts(s, s', t, lost);
    case AllocSearch =>
      var r := FirstFit(s.freelist, pc.size);
      if r.None? {
        PcAccounts(s, s', t, lost);
      } else {
        TakeAccounts(s, s', t, r.value, pc.size, lost);
      }
    case AllocUnlock => PcAccounts(s, s', t, lost);
    case MapFails => PcAccounts(s, s', t, lost);
    case MapPages(addr) =>
      AskSizeFits(pc.size, s.page);
      MapAccounts(s, s', t, Block(addr, AskSize(pc.size, s.page)), pc.size, lost);
    case StartFree(_) => PcAccounts(s, s', t, lost);
    case SplitOwn(b, n) => SplitAccounts(s, s', t, b, n, lost);
    case Unmap => PcHeld(s, t); ShrinkAccounts(s, s', t, pc.b, lost, false);
    case FreeLock =>
      if s.lock {
        PcHeld(s, t);
        ShrinkAccounts(s, s', t, pc.b, lost, true);
      } else {
        PcAccounts(s, s', t, lost);
      }
    case FreeInsert => PcHeld(s, t); InsertAccounts(s, s', t, pc.b, lost);
    case FreeUnlock => PcAccounts(s, s', t, lost);
    case Finished => PcAccounts(s, s', t, lost);
  }

  lemma PcHeld(s: State, t: nat)
    requires Inv(s) && t < |s.threads|
    ensures s.threads[t].pc.FreeTry? ==> s.threads[t].pc.b in s.threads[t].held
    ensures s.threads[t].pc.FreeHold? ==> s.threads[t].pc.b in s.threads[t].held
  {
    PcFacts(s, t);
  }

  /** All that has been leaked before state i of a run. */
  ghost function Leaked(states: seq<State>, moves: seq<Move>, i: nat): set<nat>
    requires Run(states, moves) && i < |states|
  {
    if i == 0 then {}
    else Leaked(states, moves, i - 1) + LeakBytes(Leak(states[i - 1], moves[i - 1].t, moves[i - 1].step))
  }

  lemma InitAccounts(s: State)
    requires Init(s)
    ensures Accounts(s, {})
  {
  }

  /** In every state of every interleaving, each mapped byte is held by a thread, or on the list, or
      leaked, and it is only one of these if it is leaked: what is leaked is never used again. */
  lemma {:induction false} MemoryConserved(states: seq<State>, moves: seq<Move>, i: nat)
    requires Run(states, moves) && i < |states|
    ensures Accounts(states[i], Leaked(states, moves, i))
  {
    hide Accounts; hide Apply; hide Enabled; hide Leak; hide LeakBytes;
    if i == 0 {
      InitAccounts(states[0]);
    } else {
      MemoryConserved(states, moves, i - 1);
      RunKeepsInv(states, moves, i - 1);
      StepAccounts(states[i - 1], moves[i - 1].t, moves[i - 1].step, Leaked(states, moves, i - 1));
    }
  }
}
