/**
 The whole computation, with its checks, and what the printed counts mean: when every split is
 exact, blocks, threads and local loops do all the work once, and the traffic formulas count
 what the blocks load.
 */
module TilingCounts {
  import opened Wrappers
  import opened Bits
  import opened Tiling

  datatype Kernel = Kernel(
    m: nat, n: nat, k: nat, blocks: nat, threads: nat, localSize: nat, dataShared: nat, kernelShared: nat,
    kOut: nat, loops: seq<Loop>, data: seq<string>, factor: nat)

  datatype Tiles = Tiles(
    kIn: nat, mBlock: nat, nBlock: nat, iBlock: nat, jBlock: nat, iLocal: nat, jLocal: nat, iThread: nat, jThread: nat,
    loops: seq<Loop>, start: nat, part: Part)

  /** A division by zero and a failed assertion both end the script. */
  datatype Outcome = Tiled(tiles: Tiles) | Rejected | DividesByZero

  method Multiply(sizes: seq<nat>) returns (p: nat)
    ensures p == ProductOf(sizes)
  {
    p := 1;
    for i := 0 to |sizes|
      invariant p == ProductOf(sizes[..i])
    {
      assert sizes[..i + 1][..i] == sizes[..i];
      p := p * sizes[i];
    }
    assert sizes[..|sizes|] == sizes;
  }

  ghost predicate Blocks(q: Kernel, t: Tiles) {
    && q.kOut > 0 && t.kIn == q.k / q.kOut
    && t.kIn > 0 && t.mBlock == q.dataShared / t.kIn && t.nBlock == q.kernelShared / t.kIn
    && t.mBlock > 0 && t.nBlock > 0 && t.iBlock == q.m / t.mBlock && t.jBlock == q.n / t.nBlock
    && t.iBlock * t.jBlock == q.blocks
  }

  ghost predicate Threads(q: Kernel, t: Tiles) {
    && t.iLocal > 0 && t.jLocal > 0 && t.iLocal * t.jLocal == q.localSize
    && t.iThread == t.mBlock / t.iLocal && t.jThread == t.nBlock / t.jLocal
    && t.iThread * t.jThread == q.threads
  }

  ghost predicate Loops(q: Kernel, t: Tiles)
    requires Named(q.loops)
  {
    && Named(t.loops) && VirtualLast(t.loops) && t.start <= |t.loops|
    && t.start <= |q.loops| <= |t.loops| && Renamed(q.loops, t.loops[..|q.loops|])
    && t.iLocal == Along(t.loops, 'i') && t.jLocal == Along(t.loops, 'j') && t.kIn == Along(t.loops, 'k')
    && t.part.m == Along(t.loops[t.start..], 'i') && t.part.n == Along(t.loops[t.start..], 'j')
    && t.part.k == Along(t.loops[t.start..], 'k')
    && t.part.rest == Product(t.loops[..t.start])
  }

  lemma RenamedFacts(before: seq<Loop>, after: seq<Loop>)
    requires Named(before) && GivenNames(before) && Renamed(before, after)
    ensures |after| == |before| && Named(after)
    ensures forall f :: 0 <= f < |after| ==> !after[f].name.Virtual? && after[f].size == before[f].size
    ensures forall f :: 0 <= f < |after| ==> after[f].name.Axis() == before[f].name.First()
  {
  }

  lemma {:induction false} RenamedAlong(before: seq<Loop>, after: seq<Loop>, c: char)
    requires Named(before) && GivenNames(before) && Named(after) && |before| == |after|
    requires forall f :: 0 <= f < |after| ==>
          after[f].size == before[f].size && after[f].name.Axis() == before[f].name.First()
    ensures Along(after, c) == Along(before, c) && OffAxes(after) == OffAxes(before)
    decreases |before|
  {
    if before != [] {
      assert after[0].name.Axis() == before[0].name.Axis();
      RenamedAlong(before[1..], after[1..], c);
    }
  }

  /** When the script gets to its end: nothing is divided by zero, and the sizes that it
      computes agree with the sizes of the launch. */
  ghost predicate Accepts(q: Kernel)
    requires Named(q.loops)
  {
    exists t :: Blocks(q, t) && |q.data| > 0 && Threads(q, t)
      && t.iLocal == VirtualRows(q.data) * Along(q.loops, 'i')
         && t.jLocal == VirtualColumns(q.data) * Along(q.loops, 'j')
      && t.kIn == Along(q.loops, 'k')
  }

  /** The splits of blocks, and the check against the number of blocks. */
  method SplitBlocks(q: Kernel) returns (r: Outcome)
    ensures r.Tiled? ==> Blocks(q, r.tiles)
    ensures !r.Tiled? ==> forall t :: !Blocks(q, t)
  {
    if q.kOut == 0 {
      return DividesByZero;
    }
    var kIn := q.k / q.kOut;
    if kIn == 0 {
      return DividesByZero;
    }
    var mBlock, nBlock := q.dataShared / kIn, q.kernelShared / kIn;
    if mBlock == 0 || nBlock == 0 {
      return DividesByZero;
    }
    var iBlock, jBlock := q.m / mBlock, q.n / nBlock;
    if iBlock * jBlock != q.blocks {
      return Rejected;
    }
    return Tiled(Tiles(kIn, mBlock, nBlock, iBlock, jBlock, 0, 0, 0, 0, [], 0, Part(0, 0, 0, 0)));
  }

  /** The local level: names, virtual threads and products, with the checks on them. */
  method LocalSizes(q: Kernel, kIn: nat) returns (loops: Option<seq<Loop>>, iLocal: nat, jLocal: nat, zero: bool)
    requires Named(q.loops) && GivenNames(q.loops)
    ensures loops.Some? <==> LocalOk(q, kIn)
    ensures loops.Some? ==>
              && iLocal == VirtualRows(q.data) * Along(q.loops, 'i')
                 && jLocal == VirtualColumns(q.data) * Along(q.loops, 'j')
              && LocalLoops(q, loops.value, iLocal, jLocal, kIn)
  {
    hide Renamed; hide Along; hide Product; hide ProductOf;
    var named, iSizes, jSizes, kSizes := NameLoops(q.loops);
    RenamedFacts(q.loops, named);
    RenamedAlong(q.loops, named, 'i');
    RenamedAlong(q.loops, named, 'j');
    RenamedAlong(q.loops, named, 'k');
    loops, iSizes, jSizes := AddVirtual(named, iSizes, jSizes, q.data);
    iLocal, jLocal, zero := 0, 0, true;
    if loops.None? {
      return;
    }
    var kLocal := Multiply(kSizes);
    iLocal := Multiply(iSizes);
    jLocal := Multiply(jSizes);
    zero := false;
    if kLocal != kIn || iLocal * jLocal != q.localSize {
      loops := None;
      return;
    }
    if iLocal == 0 || jLocal == 0 {
      loops, zero := None, true;
    }
  }

  /** What the local level asserts. */
  ghost predicate LocalOk(q: Kernel, kIn: nat)
    requires Named(q.loops)
  {
    |q.data| > 0 && kIn == Along(q.loops, 'k') &&
    var i, j := VirtualRows(q.data) * Along(q.loops, 'i'), VirtualColumns(q.data) * Along(q.loops, 'j');
    i * j == q.localSize && i != 0 && j != 0
  }

  ghost predicate LocalLoops(q: Kernel, loops: seq<Loop>, iLocal: nat, jLocal: nat, kIn: nat)
    requires Named(q.loops)
  {
    && Named(loops) && VirtualLast(loops) && |q.loops| <= |loops| && Renamed(q.loops, loops[..|q.loops|])
    && (forall f :: |q.loops| <= f < |loops| ==> loops[f].name.Virtual?)
    && iLocal == Along(loops, 'i') && jLocal == Along(loops, 'j') && kIn == Along(loops, 'k')
  }

  /** The unrolled part of loops that passed the checks: nothing is divided by zero. */
  method SplitUnrolled(q: Kernel, loops: seq<Loop>, iLocal: nat, jLocal: nat, kIn: nat) returns (start: nat, part: Part)
    requires Named(q.loops) && GivenNames(q.loops) && LocalLoops(q, loops, iLocal, jLocal, kIn)
    requires iLocal > 0 && jLocal > 0 && kIn > 0
    ensures start <= |q.loops|
    ensures Unrolled(loops, q.factor, start)
    ensures part.m == Along(loops[start..], 'i') && part.n == Along(loops[start..], 'j')
        && part.k == Along(loops[start..], 'k')
    ensures part.rest == Product(loops[..start])
  {
    hide Renamed; hide Along; hide Product;
    var count;
    start, count := UnrollStart(loops, q.factor);
    NotVirtualBefore(loops, start);
    var p := DivideOut(loops, start, iLocal, jLocal, kIn);
    if p.None? {
      ghost var f :| 0 <= f < start && Divides(loops[f]) && loops[f].size == 0;
      AlongZero(loops, f);
      assert false;
    }
    part := p.value;
  }

  /** The whole script.  It gets to its end if and only if the sizes agree. */
  method Tile(q: Kernel) returns (r: Outcome)
    requires Named(q.loops) && GivenNames(q.loops)
    ensures r.Tiled? <==> Accepts(q)
    ensures r.Tiled? ==> Blocks(q, r.tiles) && Threads(q, r.tiles) && Loops(q, r.tiles)
    ensures r.Tiled? ==> Unrolled(r.tiles.loops, q.factor, r.tiles.start)
  {
    hide Renamed; hide Along; hide Product; hide Unrolled; hide VirtualRows; hide VirtualColumns;
    r := SplitBlocks(q);
    if !r.Tiled? {
      return;
    }
    var t := r.tiles;
    var loops, iLocal, jLocal, zero := LocalSizes(q, t.kIn);
    if loops.None? {
      return if zero then DividesByZero else Rejected;
    }
    var iThread, jThread := t.mBlock / iLocal, t.nBlock / jLocal;
    if iThread * jThread != q.threads {
      return Rejected;
    }
    var start, part := SplitUnrolled(q, loops.value, iLocal, jLocal, t.kIn);
    r := Tiled(t.(iLocal := iLocal, jLocal := jLocal, iThread := iThread, jThread := jThread,
                  loops := loops.value, start := start, part := part));
  }

  lemma NotVirtualBefore(loops: seq<Loop>, start: nat)
    requires VirtualLast(loops) && start <= |loops| && (start > 0 ==> !loops[start - 1].name.IsVirtual())
    ensures forall f :: 0 <= f < start ==> !loops[f].name.Virtual?
  {
  }

  // ----- work

  /** Unrolling only regroups the work of a thread, if and only if the generated loops that are
      not unrolled and run over none of the three dimensions make one trip. */
  lemma ThreadWork(q: Kernel, t: Tiles)
    requires Named(q.loops) && GivenNames(q.loops) && Loops(q, t) && t.iLocal > 0 && t.jLocal > 0 && t.kIn > 0
    ensures t.part.m * t.part.n * t.part.k * t.part.rest == t.iLocal * t.jLocal * t.kIn * OffAxes(q.loops[..t.start])
    ensures t.part.m * t.part.n * t.part.k * t.part.rest == t.iLocal * t.jLocal * t.kIn <==>
          OffAxes(q.loops[..t.start]) == 1
  {
    hide Along; hide Product;
    UnrollKeepsWork(t.loops, t.start, t.part);
    RenamedPrefix(q.loops, t.loops[..|q.loops|], t.start);
    assert t.loops[..|q.loops|][..t.start] == t.loops[..t.start];
    EqualProducts(1, t.iLocal, 1, t.jLocal);
    EqualProducts(1, t.iLocal * t.jLocal, 1, t.kIn);
  }

  lemma RenamedPrefix(before: seq<Loop>, after: seq<Loop>, n: nat)
    requires Named(before) && GivenNames(before) && Renamed(before, after) && n <= |before|
    ensures |after| == |before| && Named(after) && OffAxes(after[..n]) == OffAxes(before[..n])
  {
    RenamedFacts(before, after);
    hide Renamed;
    RenamedAlong(before[..n], after[..n], 'i');
  }

  lemma DivLeft(x: nat, y: nat)
    requires y > 0
    ensures x / y * y <= x && (x / y * y == x <==> x % y == 0)
  {
    QuotientNonNegative(x, y);
    assert x == x / y * y + x % y;
  }

  /** Products of factors that are not too large are equal exactly when the factors are. */
  lemma EqualProducts(a: nat, x: nat, b: nat, y: nat)
    requires a <= x && b <= y && x > 0 && y > 0
    ensures a * b <= x * y && (a * b == x * y <==> a == x && b == y)
  {
    MulMono(a, x, b);
    MulMono(b, y, x);
    assert x * b == b * x && x * y == y * x;
    if a < x && b == y {
      MulMono(a + 1, x, y);
      MulDist(a, 1, y);
    } else if b < y {
      MulMono(b + 1, y, x);
      MulDist(b, 1, x);
    }
  }

  /** One dimension: blocks, threads in a block and rows of a thread. */
  lemma OneDimension(m: nat, mBlock: nat, iLocal: nat)
    requires m > 0 && mBlock > 0 && iLocal > 0
    ensures m / mBlock * (mBlock / iLocal * iLocal) <= m
    ensures m / mBlock * (mBlock / iLocal * iLocal) == m <==> m % mBlock == 0 && mBlock % iLocal == 0
  {
    DivLeft(m, mBlock);
    DivLeft(mBlock, iLocal);
    QuotientNonNegative(m, mBlock);
    QuotientNonNegative(mBlock, iLocal);
    Repeated(m / mBlock, mBlock / iLocal * iLocal, mBlock, m);
  }

  lemma Repeated(i: nat, p: nat, block: nat, m: nat)
    requires m > 0 && block > 0 && p <= block && i * block <= m
    ensures i * p <= m && (i * p == m <==> i * block == m && p == block)
  {
    if i > 0 {
      EqualProducts(i, i, p, block);
    }
  }

  ghost predicate ExactSplits(q: Kernel, t: Tiles)
    requires Blocks(q, t) && Threads(q, t)
  {
    q.m % t.mBlock == 0 && q.n % t.nBlock == 0 && t.mBlock % t.iLocal == 0 && t.nBlock % t.jLocal == 0
  }

  lemma Regroup(a: nat, b: nat, c: nat, d: nat, e: nat, f: nat)
    ensures (a * b) * (c * d) * (e * f) == (a * (c * e)) * (b * (d * f))
  {
    MulAssoc(a, b, c * d);
    var x := a * (c * e);
    assert (a * b) * (c * d) == (a * c) * (b * d) by {
      MulAssoc(a, b, c * d);
      assert b * (c * d) == c * (b * d) by { MulAssoc(b, c, d); MulAssoc(c, b, d); assert b * c == c * b; }
      MulAssoc(a, c, b * d);
    }
    assert ((a * c) * (b * d)) * (e * f) == ((a * c) * e) * ((b * d) * f) by {
      var u, v := a * c, b * d;
      assert (u * v) * (e * f) == u * (v * (e * f)) by { MulAssoc(u, v, e * f); }
      assert v * (e * f) == e * (v * f) by { MulAssoc(v, e, f); MulAssoc(e, v, f); assert v * e == e * v; }
      assert u * (e * (v * f)) == (u * e) * (v * f) by { MulAssoc(u, e, v * f); }
    }
    MulAssoc(a, c, e);
    MulAssoc(b, d, f);
  }

  /** Blocks, threads and local elements cover the result once, exactly when all splits of the
      two outer dimensions are exact. */
  lemma OutputOnce(q: Kernel, t: Tiles)
    requires Blocks(q, t) && Threads(q, t) && q.m > 0 && q.n > 0
    ensures q.blocks * q.threads * q.localSize <= q.m * q.n
    ensures q.blocks * q.threads * q.localSize == q.m * q.n <==> ExactSplits(q, t)
  {
    RowsColumns(q, t);
    Covered(q, t);
    hide Blocks; hide Threads; hide ExactSplits;
    EqualProducts(Rows(t), q.m, Columns(t), q.n);
  }

  ghost function Rows(t: Tiles): nat {
    t.iBlock * (t.iThread * t.iLocal)
  }

  ghost function Columns(t: Tiles): nat {
    t.jBlock * (t.jThread * t.jLocal)
  }

  lemma RowsColumns(q: Kernel, t: Tiles)
    requires Blocks(q, t) && Threads(q, t) && q.m > 0 && q.n > 0
    ensures Rows(t) <= q.m && Columns(t) <= q.n && (Rows(t) == q.m && Columns(t) == q.n <==> ExactSplits(q, t))
  {
    OneDimension(q.m, t.mBlock, t.iLocal);
    OneDimension(q.n, t.nBlock, t.jLocal);
  }

  lemma Covered(q: Kernel, t: Tiles)
    requires Blocks(q, t) && Threads(q, t)
    ensures q.blocks * q.threads * q.localSize == Rows(t) * Columns(t)
  {
    Regroup(t.iBlock, t.jBlock, t.iThread, t.jThread, t.iLocal, t.jLocal);
  }

  /** The multiplications that all threads do together. */
  ghost function Work(q: Kernel, t: Tiles): nat {
    q.blocks * q.threads * (q.kOut * (t.part.m * t.part.n * t.part.k * t.part.rest))
  }

  /** The multiplications of the product that are done are all of them exactly when the split of
      the inner dimension is exact too; each of them is done as often as the other loops trip. */
  lemma WorkDone(q: Kernel, t: Tiles) returns (covered: nat)
    requires Named(q.loops) && GivenNames(q.loops) && Blocks(q, t) && Threads(q, t) && Loops(q, t)
    requires q.m > 0 && q.n > 0 && q.k > 0
    ensures Work(q, t) == covered * OffAxes(q.loops[..t.start])
    ensures covered <= q.m * q.n * q.k
    ensures covered == q.m * q.n * q.k <==> ExactSplits(q, t) && q.k % q.kOut == 0
  {
    hide *;
    ThreadTotal(q, t);
    OutputOnce(q, t);
    InnerSplit(q, t);
    EqualProducts(1, q.m, 1, q.n);
    WorkIs(q, t);
    covered := CoveredWork(q.blocks * q.threads, q.localSize, t.kIn, q.kOut, Others(q, t),
                           t.part.m * t.part.n * t.part.k * t.part.rest, q.m * q.n, q.k);
  }

  lemma InnerSplit(q: Kernel, t: Tiles)
    requires Blocks(q, t)
    ensures q.kOut > 0 && t.kIn * q.kOut <= q.k && (t.kIn * q.kOut == q.k <==> q.k % q.kOut == 0)
  {
    DivLeft(q.k, q.kOut);
  }

  lemma WorkIs(q: Kernel, t: Tiles)
    ensures Work(q, t) == q.blocks * q.threads * (q.kOut * (t.part.m * t.part.n * t.part.k * t.part.rest))
  {
  }

  lemma CoveredWork(bt: nat, local: nat, kIn: nat, kOut: nat, o: nat, work: nat, mn: nat, k: nat) returns (covered: nat)
    requires work == local * kIn * o && bt * local <= mn && kIn * kOut <= k && mn > 0 && k > 0
    ensures bt * (kOut * work) == covered * o && covered <= mn * k
    ensures covered == mn * k <==> bt * local == mn && kIn * kOut == k
  {
    covered := bt * local * (kIn * kOut);
    WorkRegrouped(bt, kOut, local, kIn, o);
    EqualProducts(bt * local, mn, kIn * kOut, k);
  }

  lemma ThreadTotal(q: Kernel, t: Tiles)
    requires Named(q.loops) && GivenNames(q.loops) && Blocks(q, t) && Threads(q, t) && Loops(q, t)
    ensures t.start <= |q.loops| && Named(q.loops[..t.start])
    ensures t.part.m * t.part.n * t.part.k * t.part.rest == q.localSize * t.kIn * Others(q, t)
    ensures Others(q, t) == OffAxes(q.loops[..t.start])
  {
    hide OffAxes;
    ThreadWork(q, t);
  }

  ghost function Others(q: Kernel, t: Tiles): nat
    requires Named(q.loops) && Loops(q, t)
  {
    OffAxes(q.loops[..t.start])
  }

  /** All multiplications are done, each once: with exact splits if and only if the other loops
      make one trip, and with one trip if and only if the splits are exact. */
  lemma WorkOnce(q: Kernel, t: Tiles)
    requires Named(q.loops) && GivenNames(q.loops) && Blocks(q, t) && Threads(q, t) && Loops(q, t)
    requires q.m > 0 && q.n > 0 && q.k > 0
    ensures OffAxes(q.loops[..t.start]) == 1 ==>
              (Work(q, t) == q.m * q.n * q.k <==> ExactSplits(q, t) && q.k % q.kOut == 0)
    ensures ExactSplits(q, t) && q.k % q.kOut == 0 ==>
              (Work(q, t) == q.m * q.n * q.k <==> OffAxes(q.loops[..t.start]) == 1)
  {
    hide Loops; hide ExactSplits; hide OffAxes; hide Work;
    var covered := WorkDone(q, t);
    EqualProducts(1, q.m, 1, q.n);
    EqualProducts(1, q.m * q.n, 1, q.k);
    TimesOne(covered, Others(q, t));
  }

  lemma WorkRegrouped(bt: nat, kOut: nat, local: nat, kIn: nat, o: nat)
    ensures bt * (kOut * (local * kIn * o)) == bt * local * (kIn * kOut) * o
  {
    MulAssoc(kOut, local * kIn, o);
    MulAssoc(bt, kOut * (local * kIn), o);
    MulAssoc(local, kIn, kOut);
    MulAssoc(bt, local, kIn * kOut);
  }

  // ----- traffic

  /** The rows of one operand, summed over all blocks and all steps of the inner dimension. */
  lemma OneOperand(other: nat, m: nat, mBlock: nat, k: nat, kOut: nat)
    requires other > 0 && m > 0 && mBlock > 0 && k > 0 && kOut > 0
    ensures (m / mBlock * other) * kOut * (mBlock * (k / kOut)) <= other * (m * k)
    ensures (m / mBlock * other) * kOut * (mBlock * (k / kOut)) == other * (m * k) <==> m % mBlock == 0 && k % kOut == 0
  {
    DivLeft(m, mBlock);
    DivLeft(k, kOut);
    var i, kIn := m / mBlock, k / kOut;
    EqualProducts(i * mBlock, m, kIn * kOut, k);
    Regroup(i, other, mBlock, 1, kIn, kOut);
    assert (i * other) * kOut * (mBlock * kIn) == other * ((i * mBlock) * (kIn * kOut)) by {
      var x, y := i * mBlock, kIn * kOut;
      assert (i * other) * kOut * (mBlock * kIn) == (i * other) * (kOut * (mBlock * kIn)) by { MulAssoc(i * other, kOut,
          mBlock * kIn); }
      assert kOut * (mBlock * kIn) == mBlock * y by { MulAssoc(mBlock, kIn, kOut); }
      assert (i * other) * (mBlock * y) == other * (x * y) by {
        assert i * other == other * i;
        MulAssoc(other, i, mBlock * y);
        MulAssoc(i, mBlock, y);
      }
    }
    EqualProducts(other, other, (i * mBlock) * (kIn * kOut), m * k);
  }

  /** What all blocks load is what the formula says, exactly when the splits of the blocks are
      exact; otherwise it is less. */
  lemma LoadedTraffic(q: Kernel, t: Tiles)
    requires Blocks(q, t) && q.blocks > 0 && q.m > 0 && q.n > 0 && q.k > 0
    ensures q.blocks * q.kOut * (t.mBlock * t.kIn + t.kIn * t.nBlock) <= t.jBlock * (q.m * q.k) + t.iBlock * (q.n * q.k)
    ensures q.blocks * q.kOut * (t.mBlock * t.kIn + t.kIn * t.nBlock) == t.jBlock * (q.m * q.k) + t.iBlock * (q.n * q.k)
            <==> q.m % t.mBlock == 0 && q.n % t.nBlock == 0 && q.k % q.kOut == 0
  {
    assert t.iBlock > 0 && t.jBlock > 0;
    OneOperand(t.jBlock, q.m, t.mBlock, q.k, q.kOut);
    OneOperand(t.iBlock, q.n, t.nBlock, q.k, q.kOut);
    var b := q.blocks * q.kOut;
    assert t.iBlock * t.jBlock == t.jBlock * t.iBlock;
    assert t.kIn * t.nBlock == t.nBlock * t.kIn;
    MulDist(t.mBlock * t.kIn, t.nBlock * t.kIn, b);
    assert b * (t.mBlock * t.kIn + t.nBlock * t.kIn) == b * (t.mBlock * t.kIn) + b * (t.nBlock * t.kIn);
  }

  // ----- a kernel with a split that is not exact

  /** Five rows in blocks of two: the script accepts this, and leaves one row out. */
  function Uneven(): (q: Kernel) {
    Kernel(5, 4, 2, 2, 1, 8, 4, 8, 1,
           [Loop(Given("i"), 2), Loop(Given("j"), 4), Loop(Given("k"), 2)], ["data"], 16)
  }

  lemma UnevenLoops()
    ensures Named(Uneven().loops) && GivenNames(Uneven().loops)
    ensures Along(Uneven().loops, 'i') == 2 && Along(Uneven().loops, 'j') == 4 && Along(Uneven().loops, 'k') == 2
  {
    var l := Uneven().loops;
    assert l[1..] == [l[1], l[2]];
    AlongTwo(l[1], l[2], 'i');
    AlongTwo(l[1], l[2], 'j');
    AlongTwo(l[1], l[2], 'k');
  }

  /** It is accepted; its blocks, threads and local elements make up 16 of the 20 results, and
      its blocks load 24 elements where the formula has 26. */
  lemma UnevenAccepted()
    ensures Named(Uneven().loops) && Accepts(Uneven())
    ensures var q := Uneven();
            q.blocks * q.threads * q.localSize == 16 && q.m * q.n == 20
    ensures exists t :: Blocks(Uneven(), t) && Threads(Uneven(), t) && !ExactSplits(Uneven(), t)
                        && Uneven().blocks * Uneven().kOut * (t.mBlock * t.kIn + t.kIn * t.nBlock) == 24
                        && t.jBlock * (5 * 2) + t.iBlock * (4 * 2) == 26
  {
    UnevenLoops();
    var t := Tiles(2, 2, 4, 2, 1, 2, 4, 1, 1, [], 0, Part(0, 0, 0, 0));
    assert Blocks(Uneven(), t) && Threads(Uneven(), t);
    assert !ExactSplits(Uneven(), t);
  }

  // ----- a kernel with a loop over none of the dimensions

  /** A loop of three trips around the loops of the product. */
  function Outer(): (q: Kernel) {
    Kernel(2, 2, 2, 1, 1, 4, 4, 4, 1, [Loop(Given("s"), 3)] + Inner(), ["data"], 8)
  }

  function Inner(): seq<Loop> {
    [Loop(Given("i"), 2), Loop(Given("j"), 2), Loop(Given("k"), 2)]
  }

  /** The loops that the script makes of them. */
  function InnerNamed(): seq<Loop> {
    [Loop(Local('i', 0), 2), Loop(Local('j', 0), 2), Loop(Local('k', 0), 2)]
  }

  /** It is accepted, and all its splits are exact; but the loop is not unrolled, and the work
      that is counted is three times that of the threads, and three times that of the product. */
  lemma OuterAccepted() returns (t: Tiles)
    ensures var q := Outer();
            && Named(q.loops) && GivenNames(q.loops) && Accepts(q)
            && Blocks(q, t) && Threads(q, t) && Loops(q, t) && Unrolled(t.loops, q.factor, t.start)
            && ExactSplits(q, t) && q.k % q.kOut == 0
            && OffAxes(q.loops[..t.start]) == 3
            && t.part.m * t.part.n * t.part.k * t.part.rest == 3 * (t.iLocal * t.jLocal * t.kIn)
            && Work(q, t) == 24 && q.m * q.n * q.k == 8
  {
    var q := Outer();
    var s, tail := Loop(Given("s"), 3), [Loop(Virtual(' '), 1)];
    var loops := [s] + (InnerNamed() + tail);
    t := Tiles(2, 2, 2, 1, 1, 2, 2, 1, 1, loops, 1, Part(2, 2, 2, 3));
    assert q.loops[..1] == [s] && loops[..1] == [s] && loops[1..] == InnerNamed() + tail;
    assert [s][1..] == [];
    OuterAlong(s, 'i');
    OuterAlong(s, 'j');
    OuterAlong(s, 'k');
    OuterRenamed(loops);
    OuterUnrolled(loops);
  }

  lemma OuterRenamed(loops: seq<Loop>)
    requires |loops| == 5 && loops[..4] == [Loop(Given("s"), 3)] + InnerNamed()
    ensures Named(Outer().loops) && Renamed(Outer().loops, loops[..4])
  {
    var l := Outer().loops;
    assert CountBefore(l, 0, 'i') == CountBefore(l, 1, 'i') == 0;
    assert CountBefore(l, 0, 'j') == CountBefore(l, 1, 'j') == CountBefore(l, 2, 'j') == 0;
    assert CountBefore(l, 0, 'k') == CountBefore(l, 1, 'k') == CountBefore(l, 2, 'k') == CountBefore(l, 3, 'k') == 0;
  }

  lemma OuterAlong(s: Loop, axis: char)
    requires s == Loop(Given("s"), 3) && axis in {'i', 'j', 'k'}
    ensures Named([s] + Inner()) && Named(InnerNamed() + [Loop(Virtual(' '), 1)])
    ensures Along([s] + Inner(), axis) == 2
    ensures Along(InnerNamed() + [Loop(Virtual(' '), 1)], axis) == 2
    ensures Along([s] + (InnerNamed() + [Loop(Virtual(' '), 1)]), axis) == 2
  {
    var a, b, v := Inner(), InnerNamed(), Loop(Virtual(' '), 1);
    assert a[1..] == [a[1], a[2]] && b[1..] == [b[1], b[2]];
    AlongTwo(a[1], a[2], axis);
    AlongTwo(b[1], b[2], axis);
    AlongOne(v, axis);
    AlongOne(s, axis);
    AlongJoin([s], a, axis);
    AlongJoin(b, [v], axis);
    AlongJoin([s], b + [v], axis);
  }

  lemma OuterUnrolled(loops: seq<Loop>)
    requires loops == [Loop(Given("s"), 3)] + (InnerNamed() + [Loop(Virtual(' '), 1)])
    ensures Unrolled(loops, 8, 1) && Product(loops[..1]) == 3
  {
    assert loops[..1] == [loops[0]] && loops[..1][1..] == [];
    assert loops[4..] == [loops[4]] && loops[4..][1..] == [] && Product(loops[4..]) == 1;
    assert loops[3..][1..] == loops[4..] && Product(loops[3..]) == 2;
    assert loops[2..][1..] == loops[3..] && Product(loops[2..]) == 4;
    assert loops[1..][1..] == loops[2..] && Product(loops[1..]) == 8;
    assert loops[0..][1..] == loops[1..] && Product(loops[0..]) == 24;
  }
}
