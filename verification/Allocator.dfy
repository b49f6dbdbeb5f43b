/**
 The allocator as a transition system over any number of threads.  A thread that does
 not get the lock maps fresh pages, or leaks what it frees.  The list is read and
 written only while the lock is held, in one step each.
 */
module Allocator {
  import opened Wrappers
  import opened FreeList
  import Bits

  const ADDRESS_LIMIT: nat := 0x1_0000_0000_0000_0000
  const UNMAP_SIZE: nat := 65536

  /** What happens after a block is freed: nothing, or the page front b is returned. */
  datatype After = Finish | Deliver(size: nat, b: Block)

  datatype Pc =
    | Idle
    | AllocTry(size: nat)
    | AllocHold(size: nat)
    | AllocRelease(size: nat, got: Option<Block>)
    | AllocMap(size: nat)
    | FreeTry(b: Block, after: After)
    | FreeHold(b: Block, after: After)
    | FreeRelease(after: After)
    | Return(size: nat, got: Option<Block>)

  /** held: every block this thread may touch, live or about to be freed. */
  datatype Thread = Thread(pc: Pc, held: set<Block>)

  datatype State = State(page: nat, freelist: seq<Block>, lock: bool, mapped: set<nat>, threads: seq<Thread>)

  // ----- steps

  function Continue(after: After): Pc {
    match after
    case Finish => Idle
    case Deliver(size, b) => Return(size, Some(b))
  }

  /** Page sizes divide the address space. */
  ghost predicate PageOk(page: nat) {
    page >= HEADER && ADDRESS_LIMIT % page == 0
  }

  /** Bytes asked of the system: size rounded up to pages in 64-bit arithmetic. */
  function AskSize(size: nat, page: nat): nat
    requires page > 0
  {
    RoundUp(size, page) % ADDRESS_LIMIT
  }

  /** The sum only wraps to zero, and the system refuses to map zero bytes. */
  lemma AskSizeFits(size: nat, page: nat)
    requires size < ADDRESS_LIMIT && PageOk(page)
    ensures AskSize(size, page) == 0 || AskSize(size, page) >= size
  {
    var r := RoundUp(size, page);
    hide RoundUp;
    var k, l := r / page, ADDRESS_LIMIT / page;
    assert r == k * page && ADDRESS_LIMIT == l * page;
    if r > ADDRESS_LIMIT {
      assert k >= l + 1 by { if k <= l { Bits.MulMono(k, l, page); } }
      Bits.MulMono(l + 1, k, page);
      Bits.MulDist(l, 1, page);
    }
  }

  ghost predicate Covers(m: set<nat>, b: Block) {
    forall x: nat :: Within(x, b) ==> x in m
  }

  ghost predicate Outside(m: set<nat>, b: Block) {
    forall x: nat :: Within(x, b) ==> x !in m
  }

  function Bytes(b: Block): set<nat> {
    set x: nat | b.addr <= x < b.addr + b.size && Within(x, b)
  }

  datatype Step =
    | StartAlloc(size: nat)
    | AllocLock
    | AllocSearch
    | AllocUnlock
    | MapFails
    | MapPages(addr: nat)
    | StartFree(b: Block)
    | SplitOwn(b: Block, n: nat)
    | Unmap
    | FreeLock
    | FreeInsert
    | FreeUnlock
    | Finished

  ghost predicate Enabled(s: State, t: nat, step: Step)
    requires t < |s.threads|
  {
    var pc, held := s.threads[t].pc, s.threads[t].held;
    match step
    case StartAlloc(size) => pc.Idle? && size < ADDRESS_LIMIT
    case AllocLock => pc.AllocTry?
    case AllocSearch => pc.AllocHold?
    case AllocUnlock => pc.AllocRelease?
    case MapFails => pc.AllocMap?
    case MapPages(addr) =>
      && pc.AllocMap? && pc.size < ADDRESS_LIMIT && PageOk(s.page)
      && var region := Block(addr, AskSize(pc.size, s.page));
         region.size > 0 && s.page <= addr && addr + region.size <= ADDRESS_LIMIT && Outside(s.mapped, region)
    case StartFree(b) => pc.Idle? && b in held
    case SplitOwn(b, n) => pc.Idle? && b in held && n <= b.size
    case Unmap => pc.FreeTry? && s.page > 0 && pc.b.size >= UNMAP_SIZE && pc.b.addr % s.page == 0
        && pc.b.size % s.page == 0
    case FreeLock => pc.FreeTry?
    case FreeInsert => pc.FreeHold?
    case FreeUnlock => pc.FreeRelease?
    case Finished => pc.Return?
  }

  function Go(s: State, t: nat, pc: Pc): State
    requires t < |s.threads|
  {
    s.(threads := s.threads[t := s.threads[t].(pc := pc)])
  }

  function Hold(s: State, t: nat, held: set<Block>): State
    requires t < |s.threads|
  {
    s.(threads := s.threads[t := s.threads[t].(held := held)])
  }

  /** The state after a step of thread t. */
  ghost function Apply(s: State, t: nat, step: Step): State
    requires t < |s.threads| && Enabled(s, t, step)
  {
    var pc, held := s.threads[t].pc, s.threads[t].held;
    match step
    case StartAlloc(size) => Go(s, t, AllocTry(size))
    case AllocLock => if s.lock then Go(s, t, AllocMap(pc.size)) else Go(s, t, AllocHold(pc.size)).(lock := true)
    case AllocSearch =>
      (match FirstFit(s.freelist, pc.size)
       case None => Go(s, t, AllocRelease(pc.size, None))
       case Some(k) =>
         var b := Front(s.freelist[k], pc.size);
         Go(Hold(s, t, held + {b}), t, AllocRelease(pc.size, Some(b))).(freelist := Take(s.freelist, k, pc.size)))
    case AllocUnlock =>
      Go(s, t, if pc.got.Some? then Return(pc.size, pc.got) else AllocMap(pc.size)).(lock := false)
    case MapFails => Go(s, t, Return(pc.size, None))
    case MapPages(addr) => AskSizeFits(pc.size, s.page); Mapped(s, t, Block(addr, AskSize(pc.size, s.page)))
    case StartFree(b) => Go(s, t, FreeTry(b, Finish))
    case SplitOwn(b, n) => Hold(s, t, held - {b} + {Block(b.addr, n), Block(b.addr + n, b.size - n)})
    case Unmap => Go(Hold(s, t, held - {pc.b}), t, Continue(pc.after)).(mapped := s.mapped - Bytes(pc.b))
    case FreeLock =>
      if s.lock then Go(Hold(s, t, held - {pc.b}), t, Continue(pc.after))
      else Go(s, t, FreeHold(pc.b, pc.after)).(lock := true)
    case FreeInsert => Go(Hold(s, t, held - {pc.b}), t, FreeRelease(pc.after)).(freelist := Insert(s.freelist, pc.b))
    case FreeUnlock => Go(s, t, Continue(pc.after)).(lock := false)
    case Finished => Go(s, t, Idle)
  }

  /** Fresh pages: keep the front, go on to free the rest. */
  ghost function Mapped(s: State, t: nat, region: Block): State
    requires t < |s.threads| && s.threads[t].pc.AllocMap? && region.size >= s.threads[t].pc.size
  {
    var size, held := s.threads[t].pc.size, s.threads[t].held;
    var front := Front(region, size);
    match Back(region, size)
    case None => Go(Hold(s, t, held + {front}), t, Return(size, Some(front))).(mapped := s.mapped + Bytes(region))
    case Some(tail) =>
      Go(Hold(s, t, held + {front, tail}), t, FreeTry(tail, Deliver(size, front))).(mapped := s.mapped + Bytes(region))
  }

  // ----- invariant

  ghost predicate Locked(pc: Pc) {
    pc.AllocHold? || pc.AllocRelease? || pc.FreeHold? || pc.FreeRelease?
  }

  /** The blocks a program counter talks about are held and large enough. */
  ghost predicate PcOk(pc: Pc, held: set<Block>) {
    match pc
    case AllocRelease(size, got) => got.Some? ==> got.value in held && got.value.size >= size
    case Return(size, got) => got.Some? ==> got.value in held && got.value.size >= size
    case FreeTry(b, after) => b in held && AfterOk(after, held - {b})
    case FreeHold(b, after) => b in held && AfterOk(after, held - {b})
    case FreeRelease(after) => AfterOk(after, held)
    case _ => true
  }

  ghost predicate AfterOk(after: After, held: set<Block>) {
    after.Deliver? ==> after.b in held && after.b.size >= after.size
  }

  ghost predicate AllDisjoint(list: seq<Block>) {
    forall i, j :: 0 <= i < j < |list| ==> Disjoint(list[i], list[j])
  }

  ghost predicate ListInv(s: State) {
    && Bounded(s.freelist) && AllDisjoint(s.freelist)
    && (forall b :: b in s.freelist ==> Covers(s.mapped, b))
  }

  /** What concerns the blocks held by one thread. */
  ghost predicate HeldInv(s: State, held: set<Block>) {
    && (forall b :: b in held ==> Covers(s.mapped, b))
    && (forall a, b :: a in held && b in held && a != b ==> Disjoint(a, b))
    && (forall a, b :: a in held && b in s.freelist ==> Disjoint(a, b))
  }

  ghost predicate Apart(h: set<Block>, k: set<Block>) {
    forall a, b :: a in h && b in k ==> Disjoint(a, b)
  }

  ghost predicate ThreadInv(s: State, t: nat)
    requires t < |s.threads|
  {
    && PcOk(s.threads[t].pc, s.threads[t].held) && HeldInv(s, s.threads[t].held)
    && (Locked(s.threads[t].pc) ==> s.lock)
  }

  ghost predicate PairInv(s: State, t: nat, u: nat)
    requires t < |s.threads| && u < |s.threads|
  {
    && Apart(s.threads[t].held, s.threads[u].held)
    && !(Locked(s.threads[t].pc) && Locked(s.threads[u].pc))
  }

  ghost predicate Inv(s: State) {
    && PageOk(s.page)
    && ListInv(s)
    && (forall t :: 0 <= t < |s.threads| ==> ThreadInv(s, t))
    && (forall t, u :: 0 <= t < u < |s.threads| ==> PairInv(s, t, u))
    && (forall x :: x in s.mapped ==> s.page <= x < ADDRESS_LIMIT)
  }

  ghost predicate Init(s: State) {
    && PageOk(s.page) && s.freelist == [] && !s.lock && s.mapped == {}
    && forall t :: 0 <= t < |s.threads| ==> s.threads[t] == Thread(Idle, {})
  }

  lemma InitInv(s: State)
    requires Init(s)
    ensures Inv(s)
  {
  }

  // ----- pieces of blocks

  ghost predicate PartOf(b: Block, whole: Block) {
    whole.addr <= b.addr && b.addr + b.size <= whole.addr + whole.size
  }

  lemma PartDisjoint(b: Block, whole: Block, c: Block)
    requires PartOf(b, whole) && Disjoint(whole, c)
    ensures Disjoint(b, c)
  {
  }

  lemma PartCovered(m: set<nat>, b: Block, whole: Block)
    requires PartOf(b, whole) && Covers(m, whole)
    ensures Covers(m, b)
  {
    forall x: nat | Within(x, b) ensures x in m { assert Within(x, whole); }
  }

  /** Mapped and unmapped blocks have no byte in common. */
  lemma FreshDisjoint(m: set<nat>, b: Block, region: Block)
    requires Covers(m, b) && Outside(m, region)
    ensures Disjoint(b, region)
  {
    if !Disjoint(b, region) {
      var x := if b.addr <= region.addr then region.addr else b.addr;
      assert Within(x, b) && Within(x, region);
    }
  }

  lemma UnmapOther(m: set<nat>, b: Block, gone: Block)
    requires Covers(m, b) && Disjoint(b, gone)
    ensures Covers(m - Bytes(gone), b)
  {
  }

  // ----- what the list operations do to disjointness

  lemma InsertMembers(list: seq<Block>, b: Block, x: Block)
    requires x in Insert(list, b)
    ensures x == b || x in list
  {
    hide Smallest;
  }

  lemma InsertDisjoint(list: seq<Block>, b: Block)
    requires AllDisjoint(list) && forall x :: x in list ==> Disjoint(b, x)
    ensures AllDisjoint(Insert(list, b))
  {
    hide Smallest;
  }

  lemma WithoutMembers(list: seq<Block>, k: nat)
    requires k < |list| && AllDisjoint(list) && Bounded(list)
    ensures AllDisjoint(Without(list, k)) && Bounded(Without(list, k))
    ensures forall x :: x in Without(list, k) ==> x in list && Disjoint(list[k], x)
  {
  }

  /** Taking a block: what stays on the list is old, or a part of the block taken that does
      not meet the part handed out. */
  lemma TakeMembers(list: seq<Block>, k: nat, size: nat)
    requires k < |list| && list[k].size >= size && AllDisjoint(list) && Bounded(list)
    ensures AllDisjoint(Take(list, k, size)) && Bounded(Take(list, k, size))
    ensures PartOf(Front(list[k], size), list[k])
    ensures forall x :: x in Take(list, k, size) ==>
              (x in list || PartOf(x, list[k])) && Disjoint(Front(list[k], size), x)
  {
    hide Smallest; hide RoundUp; hide Insert; hide Without;
    var p, front := list[k], Front(list[k], size);
    WithoutMembers(list, k);
    var rest := Without(list, k);
    forall x | x in rest ensures Disjoint(front, x) { PartDisjoint(front, p, x); }
    match Back(p, size) {
      case None =>
      case Some(back) =>
        forall x | x in rest ensures Disjoint(back, x) { PartDisjoint(back, p, x); }
        InsertBounded(rest, back);
        InsertDisjoint(rest, back);
        forall x | x in Insert(rest, back)
          ensures (x in list || PartOf(x, p)) && Disjoint(front, x)
        {
          InsertMembers(rest, back, x);
        }
    }
  }

  // ----- every step keeps the invariant

  lemma OtherThread(s: State, t: nat, u: nat)
    requires Inv(s) && t < |s.threads| && u < |s.threads| && t != u
    ensures Apart(s.threads[t].held, s.threads[u].held) && Apart(s.threads[u].held, s.threads[t].held)
    ensures !(Locked(s.threads[t].pc) && Locked(s.threads[u].pc))
    ensures HeldInv(s, s.threads[u].held) && (Locked(s.threads[u].pc) ==> s.lock)
  {
    assert ThreadInv(s, u);
    assert if t < u then PairInv(s, t, u) else PairInv(s, u, t);
  }

  /** What has to be shown about a step of thread t. */
  lemma Assemble(s: State, s': State, t: nat)
    requires Inv(s) && t < |s.threads| == |s'.threads| && s'.page == s.page
    requires forall u :: 0 <= u < |s.threads| && u != t ==> s'.threads[u] == s.threads[u]
    requires ListInv(s') && forall x :: x in s'.mapped ==> s.page <= x < ADDRESS_LIMIT
    requires ThreadInv(s', t)
    requires forall u :: 0 <= u < |s.threads| && u != t ==>
               && HeldInv(s', s.threads[u].held) && (Locked(s.threads[u].pc) ==> s'.lock)
               && Apart(s'.threads[t].held, s.threads[u].held)
               && !(Locked(s'.threads[t].pc) && Locked(s.threads[u].pc))
    ensures Inv(s')
  {
    hide HeldInv; hide ListInv; hide PcOk; hide Locked; hide PageOk;
    forall u | 0 <= u < |s.threads| ensures ThreadInv(s', u) {
      assert ThreadInv(s, u);
    }
    forall u, v | 0 <= u < v < |s.threads| ensures PairInv(s', u, v) {
      if u != t && v != t {
        assert PairInv(s, u, v);
      }
    }
  }

  lemma PcStep(s: State, t: nat, pc: Pc, lock: bool)
    requires Inv(s) && t < |s.threads| && PcOk(pc, s.threads[t].held)
    requires Locked(pc) ==> lock && (Locked(s.threads[t].pc) || !s.lock)
    requires s.lock && !lock ==> Locked(s.threads[t].pc)
    ensures Inv(Go(s, t, pc).(lock := lock))
  {
    hide PcOk; hide Locked; hide PageOk;
    var s' := Go(s, t, pc).(lock := lock);
    assert ThreadInv(s, t);
    forall u | 0 <= u < |s.threads| && u != t
      ensures HeldInv(s', s.threads[u].held) && (Locked(s.threads[u].pc) ==> lock)
      ensures Apart(s.threads[t].held, s.threads[u].held) && !(Locked(pc) && Locked(s.threads[u].pc))
    {
      OtherThread(s, t, u);
    }
    Assemble(s, s', t);
  }

  /** Thread t lets go of a block, which may be unmapped as well. */
  lemma ShrinkStep(s: State, t: nat, gone: Block, pc: Pc, mapped: set<nat>)
    requires Inv(s) && t < |s.threads| && gone in s.threads[t].held
    requires mapped == s.mapped || mapped == s.mapped - Bytes(gone)
    requires PcOk(pc, s.threads[t].held - {gone}) && !Locked(pc)
    ensures Inv(Go(Hold(s, t, s.threads[t].held - {gone}), t, pc).(mapped := mapped))
  {
    hide PcOk; hide Locked; hide PageOk; hide Covers; hide Disjoint; hide Bounded;
    var held := s.threads[t].held;
    var s' := Go(Hold(s, t, held - {gone}), t, pc).(mapped := mapped);
    assert ThreadInv(s, t);
    forall b | b in s.freelist || (b in held && b != gone) ensures Covers(mapped, b) {
      DisjointSym(gone, b);
      UnmapOther(s.mapped, b, gone);
    }
    forall u | 0 <= u < |s.threads| && u != t
      ensures HeldInv(s', s.threads[u].held) && (Locked(s.threads[u].pc) ==> s'.lock)
      ensures Apart(held - {gone}, s.threads[u].held)
    {
      OtherThread(s, t, u);
      forall b | b in s.threads[u].held ensures Covers(mapped, b) {
        DisjointSym(gone, b);
        UnmapOther(s.mapped, b, gone);
      }
    }
    assert forall x :: x in mapped ==> x in s.mapped;
    Assemble(s, s', t);
  }

  lemma DisjointSym(a: Block, b: Block)
    requires Disjoint(a, b)
    ensures Disjoint(b, a)
  {
  }

  /** Thread t gives a block to the list. */
  lemma InsertStep(s: State, t: nat, b: Block, pc: Pc)
    requires Inv(s) && t < |s.threads| && b in s.threads[t].held && s.lock
    requires PcOk(pc, s.threads[t].held - {b}) && Locked(s.threads[t].pc)
    ensures Inv(Go(Hold(s, t, s.threads[t].held - {b}), t, pc).(freelist := Insert(s.freelist, b)))
  {
    hide PcOk; hide Locked; hide PageOk; hide Covers; hide Disjoint; hide Bounded; hide Insert;
    var held, list := s.threads[t].held, Insert(s.freelist, b);
    var s' := Go(Hold(s, t, held - {b}), t, pc).(freelist := list);
    assert ThreadInv(s, t);
    InsertBounded(s.freelist, b);
    InsertDisjoint(s.freelist, b);
    forall x | x in list ensures Covers(s.mapped, x) { InsertMembers(s.freelist, b, x); }
    forall a, x | a in held - {b} && x in list ensures Disjoint(a, x) { InsertMembers(s.freelist, b, x); }
    forall u | 0 <= u < |s.threads| && u != t
      ensures HeldInv(s', s.threads[u].held) && Apart(held - {b}, s.threads[u].held)
      ensures !(Locked(pc) && Locked(s.threads[u].pc))
    {
      OtherThread(s, t, u);
      forall a, x | a in s.threads[u].held && x in list ensures Disjoint(a, x) { InsertMembers(s.freelist, b, x); }
    }
    Assemble(s, s', t);
  }

  /** Thread t takes a block, or the front of one, from the list. */
  lemma TakeStep(s: State, t: nat, k: nat, size: nat, pc: Pc)
    requires Inv(s) && t < |s.threads| && k < |s.freelist| && s.freelist[k].size >= size && s.lock
    requires Locked(s.threads[t].pc)
    requires PcOk(pc, s.threads[t].held + {Front(s.freelist[k], size)})
    ensures Inv(Go(Hold(s, t, s.threads[t].held + {Front(s.freelist[k], size)}), t,
        pc).(freelist := Take(s.freelist, k, size)))
  {
    hide PcOk; hide Locked; hide PageOk; hide Covers; hide Disjoint; hide Bounded; hide Take; hide Front; hide PartOf;
    var held, list, p, front := s.threads[t].held, Take(s.freelist, k, size), s.freelist[k], Front(s.freelist[k], size);
    var s' := Go(Hold(s, t, held + {front}), t, pc).(freelist := list);
    assert ThreadInv(s, t);
    TakeMembers(s.freelist, k, size);
    forall x | x in list ensures Covers(s.mapped, x) { if x !in s.freelist { PartCovered(s.mapped, x, p); } }
    PartCovered(s.mapped, front, p);
    forall a | a in held ensures Disjoint(front, a) && Disjoint(a, front) { FromList(s, held, p, front, a); }
    forall a, x | a in held && x in list ensures Disjoint(a, x) { if x !in s.freelist { FromList(s, held, p, x, a); } }
    forall u | 0 <= u < |s.threads| && u != t
      ensures HeldInv(s', s.threads[u].held) && Apart(held + {front}, s.threads[u].held)
      ensures !(Locked(pc) && Locked(s.threads[u].pc))
    {
      OtherThread(s, t, u);
      var other := s.threads[u].held;
      forall a | a in other ensures Disjoint(front, a) { FromList(s, other, p, front, a); }
      forall a, x | a in other && x in list ensures Disjoint(a, x) { if x !in s.freelist { FromList(s, other, p, x, a); } }
    }
    Assemble(s, s', t);
  }

  lemma FromList(s: State, held: set<Block>, p: Block, x: Block, a: Block)
    requires HeldInv(s, held) && p in s.freelist && PartOf(x, p) && a in held
    ensures Disjoint(a, x) && Disjoint(x, a)
  {
    hide Covers;
    assert Disjoint(a, p);
  }

  /** Thread t splits one of its blocks. */
  lemma SplitStep(s: State, t: nat, b: Block, n: nat)
    requires Inv(s) && t < |s.threads| && b in s.threads[t].held && n <= b.size && s.threads[t].pc.Idle?
    ensures Inv(Hold(s, t, s.threads[t].held - {b} + {Block(b.addr, n), Block(b.addr + n, b.size - n)}))
  {
    hide PageOk; hide Covers; hide Bounded; hide ListInv;
    var x, y := Block(b.addr, n), Block(b.addr + n, b.size - n);
    var held, held' := s.threads[t].held, s.threads[t].held - {b} + {x, y};
    var s' := Hold(s, t, held');
    assert ThreadInv(s, t);
    SplitHeld(s, held, b, n);
    hide Disjoint;
    forall u | 0 <= u < |s.threads| && u != t
      ensures HeldInv(s', s.threads[u].held) && Apart(held', s.threads[u].held) && (Locked(s.threads[u].pc) ==> s.lock)
    {
      OtherThread(s, t, u);
      SplitApart(held, s.threads[u].held, b, n);
    }
    assert ListInv(s') by { SameList(s, s'); }
    Assemble(s, s', t);
  }

  lemma SplitHeld(s: State, held: set<Block>, b: Block, n: nat)
    requires HeldInv(s, held) && b in held && n <= b.size
    ensures HeldInv(s, held - {b} + {Block(b.addr, n), Block(b.addr + n, b.size - n)})
  {
    hide Covers;
    PartCovered(s.mapped, Block(b.addr, n), b);
    PartCovered(s.mapped, Block(b.addr + n, b.size - n), b);
  }

  lemma SplitApart(held: set<Block>, other: set<Block>, b: Block, n: nat)
    requires Apart(held, other) && b in held && n <= b.size
    ensures Apart(held - {b} + {Block(b.addr, n), Block(b.addr + n, b.size - n)}, other)
  {
  }

  lemma SameList(s: State, s': State)
    requires ListInv(s) && s'.freelist == s.freelist && s'.mapped == s.mapped
    ensures ListInv(s')
  {
  }

  /** Thread t gets fresh pages. */
  lemma MapStep(s: State, t: nat, region: Block)
    requires Inv(s) && t < |s.threads| && s.threads[t].pc.AllocMap? && region.size >= s.threads[t].pc.size
    requires s.page <= region.addr && region.addr + region.size <= ADDRESS_LIMIT && Outside(s.mapped, region)
    requires region.size > 0
    ensures Inv(Mapped(s, t, region))
  {
    hide PageOk; hide Bounded; hide Disjoint; hide Front; hide Back; hide Covers; hide Outside;
    var size, held := s.threads[t].pc.size, s.threads[t].held;
    var front, s' := Front(region, size), Mapped(s, t, region);
    var held' := s'.threads[t].held;
    assert ThreadInv(s, t);
    FreshPieces(region, size);
    forall x | x in held' && x !in held ensures PartOf(x, region) { }
    forall b | Covers(s.mapped, b) ensures Covers(s'.mapped, b) { CoversMore(s.mapped, b, region); }
    forall x | PartOf(x, region) ensures Covers(s'.mapped, x) { CoversFresh(s.mapped, x, region); }
    forall b, x | Covers(s.mapped, b) && PartOf(x, region) ensures Disjoint(b, x) && Disjoint(x, b) {
      FreshDisjoint(s.mapped, b, region);
      PartDisjoint(x, region, b) by { DisjointSym(b, region); }
      DisjointSym(x, b);
    }
    forall u | 0 <= u < |s.threads| && u != t
      ensures HeldInv(s', s.threads[u].held) && Apart(held', s.threads[u].held) && (Locked(s.threads[u].pc) ==> s'.lock)
    {
      OtherThread(s, t, u);
    }
    assert HeldInv(s', held');
    Assemble(s, s', t);
  }

  lemma FreshPieces(region: Block, size: nat)
    requires region.size >= size && region.size > 0
    ensures PartOf(Front(region, size), region)
    ensures Back(region, size).Some? ==>
              var tail := Back(region, size).value;
              PartOf(tail, region) && Disjoint(Front(region, size), tail) && Disjoint(tail, Front(region, size))
                  && tail != Front(region, size)
  {
    hide RoundUp;
  }

  lemma CoversMore(m: set<nat>, b: Block, region: Block)
    requires Covers(m, b)
    ensures Covers(m + Bytes(region), b)
  {
  }

  lemma CoversFresh(m: set<nat>, x: Block, region: Block)
    requires PartOf(x, region)
    ensures Covers(m + Bytes(region), x)
  {
  }

  /** Any step of any thread keeps the invariant. */
  lemma StepKeepsInv(s: State, t: nat, step: Step)
    requires Inv(s) && t < |s.threads| && Enabled(s, t, step)
    ensures Inv(Apply(s, t, step))
  {
    hide Inv; hide HeldInv; hide ListInv; hide PageOk; hide Outside; hide RoundUp; hide Mapped; hide Go; hide Hold;
    hide Front; hide Take; hide Insert;
    var pc, held := s.threads[t].pc, s.threads[t].held;
    PcFacts(s, t);
    match step
    case StartAlloc(size) => PcStep(s, t, AllocTry(size), s.lock); GoLock(s, t, AllocTry(size));
    case AllocLock =>
      if s.lock {
        PcStep(s, t, AllocMap(pc.size), s.lock);
        GoLock(s, t, AllocMap(pc.size));
      } else {
        PcStep(s, t, AllocHold(pc.size), true);
      }
    case AllocSearch =>
      var r := FirstFit(s.freelist, pc.size);
      if r.None? {
        PcStep(s, t, AllocRelease(pc.size, None), s.lock);
        GoLock(s, t, AllocRelease(pc.size, None));
      } else {
        TakeStep(s, t, r.value, pc.size, AllocRelease(pc.size, Some(Front(s.freelist[r.value], pc.size))));
      }
    case AllocUnlock =>
      PcStep(s, t, if pc.got.Some? then Return(pc.size, pc.got) else AllocMap(pc.size), false);
    case MapFails => PcStep(s, t, Return(pc.size, None), s.lock); GoLock(s, t, Return(pc.size, None));
    case MapPages(addr) =>
      AskSizeFits(pc.size, s.page);
      MapStep(s, t, Block(addr, AskSize(pc.size, s.page)));
    case StartFree(b) => PcStep(s, t, FreeTry(b, Finish), s.lock); GoLock(s, t, FreeTry(b, Finish));
    case SplitOwn(b, n) => SplitStep(s, t, b, n);
    case Unmap => ShrinkStep(s, t, pc.b, Continue(pc.after), s.mapped - Bytes(pc.b));
    case FreeLock =>
      if s.lock {
        ShrinkStep(s, t, pc.b, Continue(pc.after), s.mapped);
        assert Go(Hold(s, t, held - {pc.b}), t, Continue(pc.after)).(mapped := s.mapped)
            == Go(Hold(s, t, held - {pc.b}), t, Continue(pc.after)) by { GoMapped(s, t, held - {pc.b},
                Continue(pc.after)); }
      } else {
        PcStep(s, t, FreeHold(pc.b, pc.after), true);
      }
    case FreeInsert => InsertStep(s, t, pc.b, FreeRelease(pc.after));
    case FreeUnlock => PcStep(s, t, Continue(pc.after), false);
    case Finished => PcStep(s, t, Idle, s.lock); GoLock(s, t, Idle);
  }

  lemma PcFacts(s: State, t: nat)
    requires Inv(s) && t < |s.threads|
    ensures PcOk(s.threads[t].pc, s.threads[t].held) && (Locked(s.threads[t].pc) ==> s.lock)
  {
    assert ThreadInv(s, t);
  }

  lemma GoLock(s: State, t: nat, pc: Pc)
    requires t < |s.threads|
    ensures Go(s, t, pc).(lock := s.lock) == Go(s, t, pc)
  {
  }

  lemma GoMapped(s: State, t: nat, held: set<Block>, pc: Pc)
    requires t < |s.threads|
    ensures |Hold(s, t, held).threads| == |s.threads|
    ensures Go(Hold(s, t, held), t, pc).(mapped := s.mapped) == Go(Hold(s, t, held), t, pc)
  {
  }

  // ----- every run

  datatype Move = Move(t: nat, step: Step)

  /** A run: from an initial state, each state follows from the one before by a step. */
  ghost predicate Run(states: seq<State>, moves: seq<Move>) {
    && |states| == |moves| + 1 && Init(states[0])
    && forall i :: 0 <= i < |moves| ==>
         && moves[i].t < |states[i].threads| && Enabled(states[i], moves[i].t, moves[i].step)
         && states[i + 1] == Apply(states[i], moves[i].t, moves[i].step)
  }

  lemma {:induction false} RunKeepsInv(states: seq<State>, moves: seq<Move>, i: nat)
    requires Run(states, moves) && i < |states|
    ensures Inv(states[i])
  {
    if i == 0 {
      InitInv(states[0]);
    } else {
      RunKeepsInv(states, moves, i - 1);
      StepKeepsInv(states[i - 1], moves[i - 1].t, moves[i - 1].step);
    }
  }

  /** No two blocks that anyone may touch overlap, all of them lie in mapped memory, the list
      is short and its entries hold their headers, only one thread is inside the lock, and a
      block that is being returned is large enough. */
  ghost predicate Safe(s: State) {
    && |s.freelist| <= 16
    && (forall i :: 0 <= i < |s.freelist| ==> s.freelist[i].size >= 16 && Covers(s.mapped, s.freelist[i]))
    && (forall i, j :: 0 <= i < j < |s.freelist| ==> Disjoint(s.freelist[i], s.freelist[j]))
    && (forall t, b :: 0 <= t < |s.threads| && b in s.threads[t].held ==> Covers(s.mapped, b))
    && (forall t, b, f :: 0 <= t < |s.threads| && b in s.threads[t].held && f in s.freelist ==> Disjoint(b, f))
    && (forall t, a, b :: 0 <= t < |s.threads| && a in s.threads[t].held && b in s.threads[t].held && a != b ==>
          Disjoint(a, b))
    && (forall t, u, a, b :: 0 <= t < u < |s.threads| && a in s.threads[t].held && b in s.threads[u].held ==>
          Disjoint(a, b))
    && (forall t, u :: 0 <= t < u < |s.threads| ==> !(Locked(s.threads[t].pc) && Locked(s.threads[u].pc)))
    && (forall t :: 0 <= t < |s.threads| ==> DeliversEnough(s.threads[t]))
  }

  ghost predicate DeliversEnough(th: Thread) {
    th.pc.Return? && th.pc.got.Some? ==> th.pc.got.value in th.held && th.pc.got.value.size >= th.pc.size
  }

  lemma InvIsSafe(s: State)
    requires Inv(s)
    ensures Safe(s)
  {
    hide Covers; hide Disjoint; hide Locked; hide PageOk;
    forall t | 0 <= t < |s.threads| ensures HeldInv(s, s.threads[t].held) && DeliversEnough(s.threads[t]) {
      assert ThreadInv(s, t);
    }
    forall t, u | 0 <= t < u < |s.threads|
      ensures Apart(s.threads[t].held, s.threads[u].held) && !(Locked(s.threads[t].pc) && Locked(s.threads[u].pc))
    {
      assert PairInv(s, t, u);
    }
  }

  /** Every state of every interleaving is safe. */
  lemma RunsAreSafe(states: seq<State>, moves: seq<Move>, i: nat)
    requires Run(states, moves) && i < |states|
    ensures Safe(states[i])
  {
    RunKeepsInv(states, moves, i);
    InvIsSafe(states[i]);
  }

  /** Rounding a request that the list can serve never wraps. */
  lemma ListRoundingFits(s: State, k: nat, size: nat)
    requires Inv(s) && k < |s.freelist| && s.freelist[k].size >= size
    ensures RoundUp(size, 8) < ADDRESS_LIMIT
  {
    hide RoundUp;
    var b := s.freelist[k];
    assert b in s.freelist;
    assert Within(b.addr, b) && Within(b.addr + b.size - 1, b);
    assert b.addr in s.mapped && b.addr + b.size - 1 in s.mapped;
  }
}
