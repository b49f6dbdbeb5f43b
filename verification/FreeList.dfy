/**
 The free list of the allocator: at most sixteen blocks, searched first fit, and full
 lists give up their smallest block for a larger one.
 */
module FreeList {
  import opened Wrappers
  import Bits

  datatype Block = Block(addr: nat, size: nat)

  /** Bytes needed for the list header that is kept inside a free block. */
  const HEADER: nat := 16
  const MAX_ENTRIES: nat := 16

  // ----- what the two list operations compute

  /** The first index of least size. */
  function Smallest(list: seq<Block>): (k: nat)
    requires |list| > 0
    ensures k < |list|
    ensures forall i :: 0 <= i < |list| ==> list[k].size <= list[i].size
    ensures forall i :: 0 <= i < k ==> list[k].size < list[i].size
  {
    if |list| == 1 then 0
    else
      var k := Smallest(list[..|list| - 1]);
      if list[|list| - 1].size < list[k].size then |list| - 1 else k
  }

  function Without<T>(list: seq<T>, k: nat): (r: seq<T>)
    requires k < |list|
    ensures |r| == |list| - 1
  {
    list[..k] + list[k + 1..]
  }

  /** The list after a block is given back. */
  function Insert(list: seq<Block>, b: Block): seq<Block> {
    if b.size < HEADER then list
    else if |list| < MAX_ENTRIES then [b] + list
    else
      var k := Smallest(list);
      if b.size <= list[k].size then list else [b] + Without(list, k)
  }

  /** The first block with at least size bytes. */
  function FirstFit(list: seq<Block>, size: nat): (r: Option<nat>)
    ensures r.None? ==> forall i :: 0 <= i < |list| ==> list[i].size < size
    ensures r.Some? ==> r.value < |list| && list[r.value].size >= size
                        && forall i :: 0 <= i < r.value ==> list[i].size < size
  {
    if |list| == 0 then None
    else
      match FirstFit(list[..|list| - 1], size)
      case Some(k) => Some(k)
      case None => if list[|list| - 1].size >= size then Some(|list| - 1) else None
  }

  function RoundUp(x: nat, m: nat): (r: nat)
    requires m > 0
    ensures x <= r < x + m && r % m == 0
  {
    RoundUpFacts(x, m);
    (x + m - 1) / m * m
  }

  lemma RoundUpFacts(x: nat, m: nat)
    requires m > 0
    ensures x <= (x + m - 1) / m * m < x + m && ((x + m - 1) / m * m) % m == 0
  {
    var q := (x + m - 1) / m;
    Bits.DivModUnique(q * m, m, q, 0);
  }

  /** Taking a block for size bytes: what is handed out and what is left of it. */
  function Front(p: Block, size: nat): (r: Block)
    requires p.size >= size
    ensures r.addr == p.addr && size <= r.size <= p.size
  {
    var n := RoundUp(size, 8);
    if n < p.size then Block(p.addr, n) else p
  }

  function Back(p: Block, size: nat): (r: Option<Block>)
    requires p.size >= size
    ensures r.Some? ==> r.value.addr == p.addr + Front(p, size).size
                        && r.value.addr + r.value.size == p.addr + p.size
  {
    var n := RoundUp(size, 8);
    if n < p.size then Some(Block(p.addr + n, p.size - n)) else None
  }

  function Take(list: seq<Block>, k: nat, size: nat): seq<Block>
    requires k < |list| && list[k].size >= size
  {
    match Back(list[k], size)
    case Some(b) => Insert(Without(list, k), b)
    case None => Without(list, k)
  }

  // ----- what the list keeps

  ghost predicate Bounded(list: seq<Block>) {
    |list| <= MAX_ENTRIES && forall i :: 0 <= i < |list| ==> list[i].size >= HEADER
  }

  lemma InsertBounded(list: seq<Block>, b: Block)
    requires Bounded(list)
    ensures Bounded(Insert(list, b))
  {
    hide Smallest;
    if |list| == MAX_ENTRIES && b.size >= HEADER {
      WithoutBounded(list, Smallest(list));
    }
  }

  lemma WithoutBounded(list: seq<Block>, k: nat)
    requires Bounded(list) && k < |list|
    ensures Bounded(Without(list, k))
  {
  }

  /** A list that is full and gets one more block keeps the largest sixteen of the
      seventeen: it drops exactly one, and nothing it keeps is smaller. */
  lemma KeepsLargest(list: seq<Block>, b: Block) returns (dropped: Block)
    requires Bounded(list) && |list| == MAX_ENTRIES && b.size >= HEADER
    ensures multiset(Insert(list, b)) + multiset{dropped} == multiset(list) + multiset{b}
    ensures |Insert(list, b)| == MAX_ENTRIES
    ensures forall x :: x in multiset(Insert(list, b)) ==> x.size >= dropped.size
  {
    hide Smallest;
    var k := Smallest(list);
    if b.size <= list[k].size {
      dropped := b;
    } else {
      dropped := list[k];
      var rest := Without(list, k);
      WithoutMultiset(list, k);
      hide Without;
      assert multiset([b] + rest) == multiset{b} + multiset(rest);
      assert forall x :: x in multiset(rest) ==> x in multiset(list);
    }
  }

  lemma WithoutMultiset<T>(list: seq<T>, k: nat)
    requires k < |list|
    ensures multiset(Without(list, k)) + multiset{list[k]} == multiset(list)
  {
    assert list == list[..k] + [list[k]] + list[k + 1..];
  }

  // ----- what becomes of every byte

  predicate Within(x: int, b: Block) {
    b.addr <= x < b.addr + b.size
  }

  ghost predicate OnList(list: seq<Block>, x: int) {
    exists i :: 0 <= i < |list| && Within(x, list[i])
  }

  ghost predicate Gone(dropped: Option<Block>, x: int) {
    dropped.Some? && Within(x, dropped.value)
  }

  /** What a list may drop: a piece too small for a header, or one no larger than any of the
      sixteen blocks that it keeps. */
  ghost predicate MayDrop(list: seq<Block>, dropped: Option<Block>) {
    dropped.Some? ==>
      || dropped.value.size < HEADER
      || (|list| == MAX_ENTRIES && forall i :: 0 <= i < |list| ==> list[i].size >= dropped.value.size)
  }

  /** The block that is lost when b is given back. */
  function InsertDrop(list: seq<Block>, b: Block): Option<Block> {
    if b.size < HEADER then Some(b)
    else if |list| < MAX_ENTRIES then None
    else if b.size <= list[Smallest(list)].size then Some(b)
    else Some(list[Smallest(list)])
  }

  /** The block that is lost when the rest of a block is given back. */
  function TakeDrop(list: seq<Block>, k: nat, size: nat): Option<Block>
    requires k < |list| && list[k].size >= size
  {
    match Back(list[k], size)
    case Some(b) => InsertDrop(Without(list, k), b)
    case None => None
  }

  lemma WithoutBytes(list: seq<Block>, k: nat, x: int)
    requires k < |list|
    ensures OnList(list, x) <==> OnList(Without(list, k), x) || Within(x, list[k])
  {
    var rest := Without(list, k);
    if i :| 0 <= i < |list| && Within(x, list[i]) && i != k {
      assert rest[if i < k then i else i - 1] == list[i];
    }
    if i :| 0 <= i < |rest| && Within(x, rest[i]) {
      assert rest[i] == list[if i < k then i else i + 1];
    }
  }

  lemma FrontBytes(list: seq<Block>, b: Block, x: int)
    ensures OnList([b] + list, x) <==> OnList(list, x) || Within(x, b)
  {
    var all := [b] + list;
    if i :| 0 <= i < |list| && Within(x, list[i]) {
      assert all[i + 1] == list[i];
    }
    assert all[0] == b;
  }

  /** Giving a block back: its bytes and those of the list are on the new list or dropped, and
      nothing else is. */
  lemma InsertConserves(list: seq<Block>, b: Block, x: int)
    requires Bounded(list)
    ensures OnList(list, x) || Within(x, b) <==> OnList(Insert(list, b), x) || Gone(InsertDrop(list, b), x)
    ensures MayDrop(Insert(list, b), InsertDrop(list, b))
  {
    hide Smallest; hide OnList; hide Within;
    if b.size >= HEADER {
      if |list| < MAX_ENTRIES {
        FrontBytes(list, b, x);
      } else {
        var k := Smallest(list);
        WithoutBytes(list, k, x);
        FrontBytes(Without(list, k), b, x);
      }
    }
  }

  /** The two pieces of a block, and their sizes: the one handed out is a multiple of 8 bytes, or
      the whole block, and has less than 8 bytes more than it needs to. */
  lemma PiecesConserve(p: Block, size: nat, x: int)
    requires p.size >= size
    ensures Within(x, p) <==> Within(x, Front(p, size)) || Gone(Back(p, size), x)
    ensures !(Within(x, Front(p, size)) && Gone(Back(p, size), x))
    ensures Front(p, size).size < size + 8 && (Back(p, size).Some? ==> Front(p, size).size % 8 == 0)
    ensures Back(p, size).None? <==> p.size - size < 8 && Front(p, size) == p
  {
    RoundUpExactly(p.size, size);
  }

  lemma RoundUpExactly(whole: nat, size: nat)
    requires whole >= size
    ensures RoundUp(size, 8) >= whole ==> whole - size < 8
  {
  }

  /** Taking a block: each byte of the list is handed out, or on the new list, or dropped. */
  lemma TakeConserves(list: seq<Block>, k: nat, size: nat, x: int)
    requires Bounded(list) && k < |list| && list[k].size >= size
    ensures OnList(list, x) <==>
            Within(x, Front(list[k], size)) || OnList(Take(list, k, size), x) || Gone(TakeDrop(list, k, size), x)
    ensures MayDrop(Take(list, k, size), TakeDrop(list, k, size))
  {
    hide OnList; hide Insert; hide InsertDrop; hide MayDrop; hide Front; hide Back; hide Within;
    WithoutBytes(list, k, x);
    WithoutBounded(list, k);
    PiecesConserve(list[k], size, x);
    var rest := Without(list, k);
    hide Without;
    match Back(list[k], size) {
      case Some(b) => InsertConserves(rest, b, x);
      case None => NothingDropped(rest);
    }
  }

  /** The bytes of the list and of block b, if any, are those of block b', if any, of the new list
      and of a piece that may be dropped. */
  ghost predicate Conserved(list: seq<Block>, b: Option<Block>, list': seq<Block>, b': Option<Block>) {
    exists dropped ::
      && MayDrop(list', dropped)
      && forall x :: OnList(list, x) || Gone(b, x) <==> OnList(list', x) || Gone(b', x) || Gone(dropped, x)
  }

  lemma InsertAll(list: seq<Block>, b: Block)
    requires Bounded(list)
    ensures Conserved(list, Some(b), Insert(list, b), None)
  {
    hide OnList; hide Insert; hide InsertDrop; hide MayDrop; hide Within;
    InsertConserves(list, b, 0);
    forall x
      ensures OnList(list, x) || Within(x, b) <==> OnList(Insert(list, b), x) || Gone(InsertDrop(list, b), x)
    {
      InsertConserves(list, b, x);
    }
    assert forall x :: Gone(Some(b), x) <==> Within(x, b);
  }

  lemma TakeAll(list: seq<Block>, k: nat, size: nat)
    requires Bounded(list) && k < |list| && list[k].size >= size
    ensures Conserved(list, None, Take(list, k, size), Some(Front(list[k], size)))
  {
    hide OnList; hide Take; hide TakeDrop; hide MayDrop; hide Within; hide Front;
    TakeConserves(list, k, size, 0);
    var b, list', d := Front(list[k], size), Take(list, k, size), TakeDrop(list, k, size);
    forall x ensures OnList(list, x) <==> Within(x, b) || OnList(list', x) || Gone(d, x) {
      TakeConserves(list, k, size, x);
    }
    assert forall x :: Gone(Some(b), x) <==> Within(x, b);
  }

  lemma NothingDropped(list: seq<Block>)
    ensures MayDrop(list, None)
  {
  }

  // ----- the list in memory

  /** What is kept in the first bytes of a free block. */
  datatype Header = Header(next: nat, size: nat)

  /** A place that holds a pointer to a header: the head of the list or a next field. */
  datatype Cell = Head | NextOf(addr: nat)

  const NULL: nat := 0

  ghost function AddrAt(list: seq<Block>, i: nat): nat {
    if i < |list| then list[i].addr else NULL
  }

  ghost function CellAt(list: seq<Block>, i: nat): Cell
    requires i <= |list|
  {
    if i == 0 then Head else NextOf(list[i - 1].addr)
  }

  ghost predicate Disjoint(a: Block, b: Block) {
    a.size == 0 || b.size == 0 || a.addr + a.size <= b.addr || b.addr + b.size <= a.addr
  }

  /** Free blocks do not overlap, so their headers do not either. */
  ghost predicate Apart(list: seq<Block>) {
    && (forall i :: 0 <= i < |list| ==> list[i].addr != NULL && list[i].size > 0)
    && (forall i, j :: 0 <= i < j < |list| ==> Disjoint(list[i], list[j]))
  }

  /** The headers in memory link the blocks of the list. */
  ghost predicate Linked(list: seq<Block>, head: nat, mem: map<nat, Header>) {
    head == AddrAt(list, 0) && forall i :: 0 <= i < |list| ==> HeaderOk(list, mem, i)
  }

  ghost predicate HeaderOk(list: seq<Block>, mem: map<nat, Header>, i: nat)
    requires i < |list|
  {
    list[i].addr in mem && mem[list[i].addr] == Header(AddrAt(list, i + 1), list[i].size)
  }

  lemma AddressesDiffer(list: seq<Block>, i: nat, j: nat)
    requires Apart(list) && i < |list| && j < |list| && i != j
    ensures list[i].addr != list[j].addr
  {
    assert if i < j then Disjoint(list[i], list[j]) else Disjoint(list[j], list[i]);
  }

  /** The head and the headers after the k-th block is taken out. */
  ghost function HeadWithout(list: seq<Block>, k: nat, head: nat): nat
    requires k < |list|
  {
    if k == 0 then AddrAt(list, 1) else head
  }

  ghost function HeadersWithout(list: seq<Block>, k: nat, mem: map<nat, Header>): map<nat, Header>
    requires k < |list|
  {
    if k == 0 then mem else mem[list[k - 1].addr := Header(AddrAt(list, k + 1), list[k - 1].size)]
  }

  lemma TakenOut(list: seq<Block>, head: nat, mem: map<nat, Header>, k: nat)
    requires Linked(list, head, mem) && Apart(list) && k < |list|
    ensures Linked(Without(list, k), HeadWithout(list, k, head), HeadersWithout(list, k, mem))
        && Apart(Without(list, k))
  {
    var rest, mem' := Without(list, k), HeadersWithout(list, k, mem);
    forall i | 0 <= i < |rest| ensures HeaderOk(rest, mem', i) {
      var j := if i < k then i else i + 1;
      assert rest[i] == list[j] && HeaderOk(list, mem, j);
      if k > 0 && j != k - 1 {
        AddressesDiffer(list, j, k - 1);
      }
    }
    WithoutApart(list, k);
  }

  lemma WithoutApart(list: seq<Block>, k: nat)
    requires Apart(list) && k < |list|
    ensures Apart(Without(list, k))
  {
    var rest := Without(list, k);
    forall i, j | 0 <= i < j < |rest| ensures Disjoint(rest[i], rest[j]) {
      assert rest[i] == list[if i < k then i else i + 1] && rest[j] == list[if j < k then j else j + 1];
    }
  }

  ghost predicate ApartFrom(b: Block, list: seq<Block>) {
    b.addr != NULL && b.size > 0 && forall i :: 0 <= i < |list| ==> Disjoint(b, list[i])
  }

  lemma PutIn(list: seq<Block>, head: nat, mem: map<nat, Header>, b: Block)
    requires Linked(list, head, mem) && Apart(list) && ApartFrom(b, list)
    ensures Linked([b] + list, b.addr, mem[b.addr := Header(head, b.size)]) && Apart([b] + list)
  {
    var all, mem' := [b] + list, mem[b.addr := Header(head, b.size)];
    forall i | 0 <= i < |all| ensures HeaderOk(all, mem', i) {
      if i > 0 {
        assert all[i] == list[i - 1] && HeaderOk(list, mem, i - 1) && Disjoint(b, list[i - 1]);
      }
    }
  }

  lemma FromWithout(b: Block, list: seq<Block>, k: nat)
    requires ApartFrom(b, list) && k < |list|
    ensures ApartFrom(b, Without(list, k))
  {
    var rest := Without(list, k);
    forall i | 0 <= i < |rest| ensures Disjoint(b, rest[i]) {
      assert rest[i] == list[if i < k then i else i + 1];
    }
  }

  /** What is left of a block is apart from the others. */
  lemma RestApart(list: seq<Block>, k: nat, n: nat)
    requires Apart(list) && k < |list| && n < list[k].size
    ensures ApartFrom(Block(list[k].addr + n, list[k].size - n), Without(list, k))
  {
    var p, rest := list[k], Without(list, k);
    forall i | 0 <= i < |rest| ensures Disjoint(Block(p.addr + n, p.size - n), rest[i]) {
      var j := if i < k then i else i + 1;
      assert rest[i] == list[j] && (if j < k then Disjoint(list[j], p) else Disjoint(p, list[j]));
    }
  }

  // ----- the list walks

  class Heap {
    var head: nat
    var mem: map<nat, Header>
    ghost var freelist: seq<Block>

    ghost predicate Valid()
      reads this
    {
      Linked(freelist, head, mem) && Apart(freelist)
    }

    /** The pointer in a cell. */
    function Load(pp: Cell): nat
      requires pp.NextOf? ==> pp.addr in mem
      reads this
    {
      match pp
      case Head => head
      case NextOf(a) => mem[a].next
    }

    lemma Loaded(i: nat)
      requires Valid() && i <= |freelist|
      ensures var pp := CellAt(freelist, i);
              (pp.NextOf? ==> pp.addr in mem) && Load(pp) == AddrAt(freelist, i)
      ensures i < |freelist| ==> Load(CellAt(freelist, i)) != NULL && Load(CellAt(freelist, i)) in mem
                                 && mem[Load(CellAt(freelist, i))] == Header(AddrAt(freelist, i + 1), freelist[i].size)
    {
      if i > 0 {
        assert HeaderOk(freelist, mem, i - 1);
      }
      if i < |freelist| {
        assert HeaderOk(freelist, mem, i);
      }
    }

    /** Let the cell point behind the block that it points to. */
    method Unlink(pp: Cell, ghost k: nat)
      requires Valid() && k < |freelist| && pp == CellAt(freelist, k)
      modifies this
      ensures Valid() && freelist == Without(old(freelist), k)
    {
      Loaded(k);
      TakenOut(freelist, head, mem, k);
      if k > 0 {
        assert HeaderOk(freelist, mem, k - 1);
      }
      var p := Load(pp);
      match pp {
        case Head => head := mem[p].next;
        case NextOf(a) => mem := mem[a := Header(mem[p].next, mem[a].size)];
      }
      freelist := Without(freelist, k);
    }

    /** Give back the block at addr; the caller holds the lock and owns the block. */
    method FreeLocked(addr: nat, size: nat)
      requires Valid() && (size > 0 ==> ApartFrom(Block(addr, size), freelist))
      modifies this
      ensures Valid() && freelist == Insert(old(freelist), Block(addr, size))
      ensures Bounded(old(freelist)) ==> Conserved(old(freelist), Some(Block(addr, size)), freelist, None)
    {
      if Bounded(freelist) {
        InsertAll(freelist, Block(addr, size));
      }
      hide Conserved; hide Bounded;
      if size >= HEADER {
        var c, small, pp := FindSmallest();
        if c >= MAX_ENTRIES {
          ghost var k := Smallest(freelist);
          Loaded(k);
          if size <= mem[Load(small)].size {
            return;
          }
          FromWithout(Block(addr, size), freelist, k);
          Unlink(small, k);
        }
        PutIn(freelist, head, mem, Block(addr, size));
        mem := mem[addr := Header(head, size)];
        head := addr;
        freelist := [Block(addr, size)] + freelist;
      }
    }

    /** Walk to the end: count the entries and remember the cell of the first smallest one. */
    method FindSmallest() returns (c: nat, small: Cell, pp: Cell)
      requires Valid()
      ensures c == |freelist| && (c > 0 ==> small == CellAt(freelist, Smallest(freelist)))
    {
      hide Smallest;
      c, small, pp := 0, Head, Head;
      Loaded(0);
      while Load(pp) != NULL
        invariant c <= |freelist| && pp == CellAt(freelist, c)
        invariant (pp.NextOf? ==> pp.addr in mem) && Load(pp) == AddrAt(freelist, c)
        invariant c > 0 ==> small == CellAt(freelist, Smallest(freelist[..c]))
        decreases |freelist| - c
      {
        Loaded(c);
        SmallestNext(freelist, c);
        if c > 0 {
          Loaded(Smallest(freelist[..c]));
        }
        if c == 0 || mem[Load(pp)].size < mem[Load(small)].size {
          small := pp;
        }
        pp := NextOf(Load(pp));
        c := c + 1;
        Loaded(c);
      }
      if c < |freelist| {
        Loaded(c);
      }
      assert freelist[..c] == freelist;
    }

    /** Take the block that the cell points to, and give back what is not needed. */
    method TakeAt(pp: Cell, ghost k: nat, size: nat) returns (b: Block)
      requires Valid() && k < |freelist| && pp == CellAt(freelist, k) && freelist[k].size >= size
      modifies this
      ensures Valid() && b == Front(old(freelist)[k], size) && freelist == Take(old(freelist), k, size)
    {
      hide Linked; hide Insert; hide Without; hide Apart; hide ApartFrom;
      Loaded(k);
      var p := Load(pp);
      b := Block(p, mem[p].size);
      var n := RoundUp(size, 8);
      if n < b.size {
        RestApart(freelist, k, n);
      }
      Unlink(pp, k);
      if n < b.size {
        FreeLocked(p + n, b.size - n);
        b := Block(p, n);
      }
    }

    /** The part of an allocation that runs under the lock. */
    method TakeLocked(size: nat) returns (r: Option<Block>)
      requires Valid()
      modifies this
      ensures Valid()
      ensures match FirstFit(old(freelist), size)
              case None => r == None && freelist == old(freelist)
              case Some(k) => r == Some(Front(old(freelist)[k], size)) && freelist == Take(old(freelist), k, size)
      ensures Bounded(old(freelist)) && r.Some? ==> Conserved(old(freelist), None, freelist, r)
    {
      hide FirstFit; hide Linked; hide Apart; hide Take; hide Front; hide Conserved; hide Bounded;
      var pp := Head;
      ghost var k := 0;
      FirstFitNone(freelist, size);
      Loaded(0);
      while Load(pp) != NULL
        invariant Valid() && freelist == old(freelist)
        invariant k <= |freelist| && pp == CellAt(freelist, k)
        invariant (pp.NextOf? ==> pp.addr in mem) && Load(pp) == AddrAt(freelist, k)
        invariant FirstFit(freelist[..k], size) == None
        decreases |freelist| - k
      {
        Loaded(k);
        var p := Load(pp);
        var has := mem[p].size;
        if has >= size {
          FirstFitIs(freelist, size, k);
          if Bounded(freelist) {
            TakeAll(freelist, k, size);
          }
          var b := TakeAt(pp, k, size);
          return Some(b);
        }
        FirstFitNext(freelist, size, k);
        pp := NextOf(p);
        k := k + 1;
        Loaded(k);
      }
      if k < |freelist| {
        Loaded(k);
      }
      assert freelist[..k] == freelist;
      return None;
    }
  }

  lemma SmallestNext(list: seq<Block>, c: nat)
    requires c < |list|
    ensures if c == 0 then Smallest(list[..1]) == 0
            else Smallest(list[..c + 1]) == if list[c].size < list[Smallest(list[..c])].size then c else Smallest(list[..c])
  {
    assert list[..c + 1][..c] == list[..c];
  }

  lemma FirstFitNone(list: seq<Block>, size: nat)
    ensures FirstFit(list[..0], size) == None
  {
  }

  lemma FirstFitNext(list: seq<Block>, size: nat, k: nat)
    requires k < |list| && FirstFit(list[..k], size) == None && list[k].size < size
    ensures FirstFit(list[..k + 1], size) == None
  {
    assert list[..k + 1][..k] == list[..k];
  }

  lemma FirstFitIs(list: seq<Block>, size: nat, k: nat)
    requires k < |list| && list[k].size >= size && FirstFit(list[..k], size) == None
    ensures FirstFit(list, size) == Some(k)
  {
    var r := FirstFit(list, size);
    assert forall i :: 0 <= i < k ==> list[..k][i].size < size;
    assert r.Some?;
  }
}
