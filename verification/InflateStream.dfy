/**
 Whole runs of the inflater over Huffman-coded blocks.
 */
module InflateStream {
  import opened Bits
  import opened Canonical
  import opened BitReader
  import opened HuffmanTable
  import opened HuffmanPlaces
  import opened HuffmanBuild
  import opened InflateSpec
  import opened Inflate
  import opened InflateHeader

  /** The work area: the literal and distance tables, the symbol links, the lengths. */
  datatype Work = Work(table: array<nat>, dtable: array<nat>, next: array<nat>, plen: array<nat>) {
    ghost predicate Valid() {
      && table.Length == TABLE_SIZE && dtable.Length == TABLE_SIZE
      && next.Length == WORK_SIZE && plen.Length == WORK_SIZE
      && table != dtable && table != next && table != plen && dtable != next && dtable != plen && next != plen
    }
  }

  lemma WorkFacts(w: Work)
    requires w.Valid()
    ensures w.table.Length == TABLE_SIZE && w.dtable.Length == TABLE_SIZE && w.table != w.dtable
  {
  }

  lemma SourceFacts(input: seq<nat>)
    ensures SourceOf(input).bits == Stream(input) && SourceOf(input).total == 8 * |input|
  {
  }

  /** The three counts at the start of a dynamic block. */
  method ReadCounts(rd: Reader) returns (ok: bool, nlit: nat, ndist: nat, nclen: nat)
    requires rd.Valid()
    modifies rd
    ensures rd.Valid() && rd.Pos() >= old(rd.Pos())
    ensures ok ==> rd.Pos() == old(rd.Pos()) + 14 && 4 <= nclen <= 19 && 257 <= nlit && 1 <= ndist
    ensures ok ==> nlit == Window(Stream(rd.input), old(rd.Pos()), 5) + 257
    ensures ok ==> ndist == Window(Stream(rd.input), old(rd.Pos()) + 5, 5) + 1
    ensures ok ==> nclen == Window(Stream(rd.input), old(rd.Pos()) + 10, 4) + 4
    ensures !ok ==> rd.Pos() == old(rd.Pos()) && rd.Pos() + SPARE_BITS >= 8 * |rd.input|
  {
    Pow2Values();
    hide Stream; hide Window; hide Pow2;
    nlit, ndist, nclen := 0, 0, 0;
    ok := rd.Fetch();
    if !ok {
      return;
    }
    nlit := rd.Take(5);
    nlit := nlit + 257;
    ndist := rd.Take(5);
    ndist := ndist + 1;
    nclen := rd.Take(4);
    nclen := nclen + 4;
  }

  /** The lengths are there, define codes, and the tables have room for them. */
  ghost predicate GoodLengths(src: Source, p: nat, nlit: nat, ndist: nat, nclen: nat, q: nat, lens: seq<nat>)
    requires nclen <= 19
  {
    var clens := CodeBits(src, p, nclen);
    && DefinesCode(clens) && RefLengths(clens, src, p + 3 * nclen, nlit + ndist, []) == Read(q, lens)
    && |lens| == nlit + ndist && nlit > 256 && lens[256] != 0
    && DefinesCode(lens[..nlit]) && DefinesCode(lens[nlit..]) && Room(lens[..nlit]) && Room(lens[nlit..])
  }

  /** The lengths read from position p to q are good, and the two tables are for them. */
  ghost predicate TablesRead(src: Source, p: nat, q: nat, nlit: nat, ndist: nat, nclen: nat, lens: seq<nat>,
      table: seq<nat>, dtable: seq<nat>)
    requires nclen <= 19
  {
    && GoodLengths(src, p, nlit, ndist, nclen, q, lens)
    && Usable(table, lens[..nlit]) && Usable(dtable, lens[nlit..])
  }

  /** Why reading the tables stopped at pos: for good lengths only close to the end. */
  ghost predicate TablesExplained(r: Status, src: Source, p: nat, nlit: nat, ndist: nat, nclen: nat, pos: nat)
    requires nclen <= 19
  {
    forall q, lens :: GoodLengths(src, p, nlit, ndist, nclen, q, lens) ==>
      r != Corrupt && (r == ShortInput ==> pos <= q && pos + SPARE_BITS >= src.total)
  }

  /** Short codes need no secondary tables. */
  lemma ShortRoom(lens: seq<nat>)
    requires ShortCodes(lens)
    ensures Room(lens)
  {
    hide End;
    forall j | 9 <= j <= MAX_LENGTH ensures RoomAt(lens, j) {
      NoneCounted(lens, |lens|, j);
      EdgeMono(lens, j);
    }
  }

  lemma CodeBitsShort(src: Source, p: nat, n: nat)
    requires n <= 19
    ensures ShortCodes(CodeBits(src, p, n))
  {
  }

  /** The first table is refused, or the input is too short for its lengths. */
  lemma ClensExplained(r: Status, src: Source, p: nat, nlit: nat, ndist: nat, nclen: nat, pos: nat)
    requires nclen <= 19
    requires r == Corrupt ==> !DefinesCode(CodeBits(src, p, nclen))
    requires r == ShortInput ==> pos <= p + 3 * nclen && pos + SPARE_BITS >= src.total
    ensures TablesExplained(r, src, p, nlit, ndist, nclen, pos)
  {
    hide CodeBits; hide RefLengths; hide DefinesCode; hide Room;
  }

  /** Reading the lengths stopped. */
  lemma LengthsStopped(r: Status, src: Source, p: nat, nlit: nat, ndist: nat, nclen: nat, pos: nat)
    requires nclen <= 19
    requires var ref := RefLengths(CodeBits(src, p, nclen), src, p + 3 * nclen, nlit + ndist, []);
             LengthsExplained(r, ref, pos, src.total)
    ensures TablesExplained(r, src, p, nlit, ndist, nclen, pos)
  {
    hide CodeBits; hide RefLengths; hide DefinesCode; hide Room;
  }

  /** One of the two tables is refused. */
  lemma CodesStopped(src: Source, p: nat, nlit: nat, ndist: nat, nclen: nat, pos: nat, lens: seq<nat>)
    requires nclen <= 19 && |lens| == nlit + ndist && nlit > 256
    requires RefLengths(CodeBits(src, p, nclen), src, p + 3 * nclen, nlit + ndist, []) == Read(pos, lens)
    requires || lens[256] == 0
             || !(DefinesCode(lens[..nlit]) && Room(lens[..nlit]))
             || !(DefinesCode(lens[nlit..]) && Room(lens[nlit..]))
    ensures TablesExplained(Corrupt, src, p, nlit, ndist, nclen, pos)
  {
    hide CodeBits; hide RefLengths; hide DefinesCode; hide Room;
  }

  /** Lengths that define a code and have room get their table, and no others do. */
  method MakeTable(lens: seq<nat>, next: array<nat>, table: array<nat>) returns (ok: bool)
    requires |lens| <= WORK_SIZE <= next.Length && table.Length == TABLE_SIZE && next != table
    modifies next, table
    ensures ok <==> DefinesCode(lens) && Room(lens)
    ensures ok ==> Usable(table[..], lens)
  {
    hide Decodes; hide Fits; hide Room; hide Means;
    var r := BuildTable(lens, next, table);
    ok := r == Built;
  }

  /** Read the code lengths of a block and build its two tables. */
  method ReadTables(rd: Reader, w: Work, nlit: nat, ndist: nat, nclen: nat) returns (r: Status, ghost lens: seq<nat>)
    requires rd.Valid() && w.Valid() && 4 <= nclen <= 19 && 257 <= nlit <= 286 && 1 <= ndist <= 30
    modifies rd, w.table, w.dtable, w.next, w.plen
    ensures rd.Valid() && rd.Pos() >= old(rd.Pos()) && r in {More, Corrupt, ShortInput}
    ensures r == More ==> rd.Pos() >= old(rd.Pos()) + 3 * nclen
    ensures r == More ==>
      TablesRead(SourceOf(rd.input), old(rd.Pos()), rd.Pos(), nlit, ndist, nclen, lens, w.table[..], w.dtable[..])
    ensures TablesExplained(r, SourceOf(rd.input), old(rd.Pos()), nlit, ndist, nclen, rd.Pos())
  {
    hide Decodes; hide Kraft; hide CodeBits; hide RefLengths; hide Stream; hide CountUpTo; hide Room;
    hide TablesExplained; hide Usable;
    hide DefinesCode; hide LengthsExplained; hide ShortCodes;
    ghost var src, p := SourceOf(rd.input), rd.Pos();
    lens := [];
    CodeBitsShort(src, p, nclen);
    ShortRoom(CodeBits(src, p, nclen));
    var ok, codebits := ReadCodeBits(rd, nclen);
    if !ok {
      ClensExplained(ShortInput, src, p, nlit, ndist, nclen, rd.Pos());
      return ShortInput, lens;
    }
    ok := MakeTable(codebits[..], w.next, w.table);
    if !ok {
      ClensExplained(Corrupt, src, p, nlit, ndist, nclen, rd.Pos());
      return Corrupt, lens;
    }
    r := ReadLengths(rd, w.table[..], CodeBits(src, p, nclen), w.plen, nlit + ndist);
    LengthsStopped(r, src, p, nlit, ndist, nclen, rd.Pos());
    if r != More {
      return r, lens;
    }
    lens := w.plen[..nlit + ndist];
    ghost var q := rd.Pos();
    if w.plen[256] == 0 {
      CodesStopped(src, p, nlit, ndist, nclen, q, lens);
      return Corrupt, lens;
    }
    ok := MakeTable(w.plen[..nlit], w.next, w.table);
    assert lens[..nlit] == w.plen[..nlit] && lens[nlit..] == w.plen[nlit..nlit + ndist];
    if !ok {
      CodesStopped(src, p, nlit, ndist, nclen, q, lens);
      return Corrupt, lens;
    }
    ok := MakeTable(w.plen[nlit..nlit + ndist], w.next, w.dtable);
    if !ok {
      CodesStopped(src, p, nlit, ndist, nclen, q, lens);
      return Corrupt, lens;
    }
    return More, lens;
  }

  /** Everything in a dynamic block before its symbols. */
  method ReadDynamic(rd: Reader, w: Work, ghost out: seq<nat>, ghost room: nat)
    returns (r: Status, ghost lit: seq<nat>, ghost dist: seq<nat>)
    requires rd.Valid() && w.Valid()
    modifies rd, w.table, w.dtable, w.next, w.plen
    ensures rd.Valid() && rd.Pos() >= old(rd.Pos()) && r in {More, Corrupt, ShortInput}
    ensures r == More ==>
              && Usable(w.table[..], lit) && Usable(w.dtable[..], dist)
              && RefDynamic(SourceOf(rd.input), old(rd.Pos()), out) ==
                 RefBlock(lit, dist, SourceOf(rd.input), rd.Pos(), out)
    ensures Explained(r, RefDynamic(SourceOf(rd.input), old(rd.Pos()), out), rd.Pos(), 8 * |rd.input|, room)
  {
    hide *;
    ghost var src, p := SourceOf(rd.input), rd.Pos();
    SourceFacts(rd.input);
    lit, dist := [], [];
    var ok, nlit, ndist, nclen := ReadCounts(rd);
    if !ok {
      CountsShort(src, p, out, room);
      return ShortInput, lit, dist;
    }
    if nlit > 286 || ndist > 30 {
      CountsWrong(src, p, out, rd.Pos(), room);
      return Corrupt, lit, dist;
    }
    ghost var lens;
    r, lens := ReadTables(rd, w, nlit, ndist, nclen);
    TablesStopped(r, src, p, out, nlit, ndist, nclen, rd.Pos(), room);
    if r == More {
      PosBound(rd);
      lit, dist := DynamicIsBlock(src, p, out, nlit, ndist, nclen, lens, rd.Pos(), w.table[..], w.dtable[..]);
    }
  }

  lemma CountsShort(src: Source, p: nat, out: seq<nat>, room: nat)
    requires p + SPARE_BITS >= src.total
    ensures Explained(ShortInput, RefDynamic(src, p, out), p, src.total, room)
  {
    hide RefDynamic;
  }

  lemma CountsWrong(src: Source, p: nat, out: seq<nat>, pos: nat, room: nat)
    requires Window(src.bits, p, 5) + 257 > 286 || Window(src.bits, p + 5, 5) + 1 > 30
    ensures Explained(Corrupt, RefDynamic(src, p, out), pos, src.total, room)
  {
    hide Window; hide CodeBits; hide RefLengths; hide RefBlock; hide DefinesCode; hide Room; hide Pow2;
  }

  lemma TablesStopped(r: Status, src: Source, p: nat, out: seq<nat>, nlit: nat, ndist: nat, nclen: nat, pos: nat,
      room: nat)
    requires nlit == Window(src.bits, p, 5) + 257 && ndist == Window(src.bits, p + 5, 5) + 1
    requires nclen == Window(src.bits, p + 10, 4) + 4 <= 19
    requires r in {More, Corrupt, ShortInput} && TablesExplained(r, src, p + 14, nlit, ndist, nclen, pos)
    ensures Explained(r, RefDynamic(src, p, out), pos, src.total, room)
  {
    var ref := RefDynamic(src, p, out);
    if ref.Done? {
      var q, lens := GoodDynamic(src, p, out, nlit, ndist, nclen);
      hide *;
      ExplainedBy(r, src, p, out, nlit, ndist, nclen, pos, room, q, lens);
    }
  }

  lemma ExplainedBy(r: Status, src: Source, p: nat, out: seq<nat>, nlit: nat, ndist: nat, nclen: nat, pos: nat,
      room: nat, q: nat, lens: seq<nat>)
    requires nclen <= 19 && r in {More, Corrupt, ShortInput} && TablesExplained(r, src, p + 14, nlit, ndist, nclen, pos)
    requires GoodLengths(src, p + 14, nlit, ndist, nclen, q, lens)
    requires RefDynamic(src, p, out).Done? && q < RefDynamic(src, p, out).pos
    ensures Explained(r, RefDynamic(src, p, out), pos, src.total, room)
  {
    hide GoodLengths; hide RefDynamic;
  }

  /** A dynamic block that the reference accepts has good lengths. */
  lemma GoodDynamic(src: Source, p: nat, out: seq<nat>, nlit: nat, ndist: nat, nclen: nat) returns (q: nat,
      lens: seq<nat>)
    requires nlit == Window(src.bits, p, 5) + 257 && ndist == Window(src.bits, p + 5, 5) + 1
    requires nclen == Window(src.bits, p + 10, 4) + 4 <= 19
    requires RefDynamic(src, p, out).Done?
    ensures GoodLengths(src, p + 14, nlit, ndist, nclen, q, lens) && q < RefDynamic(src, p, out).pos
  {
    hide Window; hide CodeBits; hide RefLengths; hide RefBlock; hide DefinesCode; hide Room; hide Pow2;
    var ref := RefLengths(CodeBits(src, p + 14, nclen), src, p + 14 + 3 * nclen, nlit + ndist, []);
    q, lens := ref.pos, ref.lens;
  }

  /** A block that brings its own codes. */
  method InflateDynamic(rd: Reader, w: Work, out: array<nat>, pout: nat) returns (r: Status, pout': nat)
    requires rd.Valid() && w.Valid() && pout <= out.Length
    requires out != w.table && out != w.dtable && out != w.next && out != w.plen
    modifies rd, out, w.table, w.dtable, w.next, w.plen
    ensures rd.Valid() && pout' <= out.Length && r != More && rd.Pos() >= old(rd.Pos())
    ensures var ref := RefDynamic(SourceOf(rd.input), old(rd.Pos()), old(out[..pout]));
            && (r == EndBlock ==> ref == Done(rd.Pos(), out[..pout']))
            && Explained(r, ref, rd.Pos(), 8 * |rd.input|, out.Length)
  {
    hide *;
    WorkFacts(w);
    ghost var out0 := out[..pout];
    pout' := pout;
    ghost var lit, dist;
    r, lit, dist := ReadDynamic(rd, w, out0, out.Length);
    if r != More {
      return;
    }
    assert out[..pout] == out0;
    r, pout' := InflateBlock(rd, w.table[..], lit, w.dtable[..], dist, out, pout);
  }

  /** The pieces of a dynamic block put together. */
  lemma DynamicIsBlock(src: Source, p: nat, out: seq<nat>, nlit: nat, ndist: nat, nclen: nat, lens: seq<nat>, q: nat,
      table: seq<nat>, dtable: seq<nat>)
    returns (lit: seq<nat>, dist: seq<nat>)
    requires nlit == Window(src.bits, p, 5) + 257 <= 286 && ndist == Window(src.bits, p + 5, 5) + 1 <= 30
    requires nclen == Window(src.bits, p + 10, 4) + 4 <= 19
    requires p + 14 + 3 * nclen <= src.total
    requires TablesRead(src, p + 14, q, nlit, ndist, nclen, lens, table, dtable)
    ensures Usable(table, lit) && Usable(dtable, dist) && RefDynamic(src, p, out) == RefBlock(lit, dist, src, q, out)
  {
    hide CodeBits; hide RefLengths; hide RefBlock; hide Window; hide DefinesCode; hide Pow2; hide Usable; hide Room;
    lit, dist := lens[..nlit], lens[nlit..];
  }

  /** All blocks up to the last.  The two fixed tables are the ones the builder makes for the
      fixed lengths; stored blocks end the run.  A run that gets to the end has the position and
      the output of the reference decoder; and it gets to the end if the reference does, the
      output fits, and there are some bytes left behind the stream. */
  method InflateBlocks(rd: Reader, w: Work, fixedLit: seq<nat>, fixedDist: seq<nat>, out: array<nat>, pout: nat)
    returns (r: Status, pout': nat)
    requires rd.Valid() && w.Valid() && pout <= out.Length
    requires out != w.table && out != w.dtable && out != w.next && out != w.plen
    requires Usable(fixedLit, FixedLiterals()) && Usable(fixedDist, FixedDistances())
    modifies rd, out, w.table, w.dtable, w.next, w.plen
    ensures rd.Valid() && pout' <= out.Length
    ensures r == EndBlock ==>
              var ref := RefBlocks(SourceOf(rd.input), old(rd.Pos()), old(out[..pout]));
              ref == Done(rd.Pos(), out[..pout'])
    ensures var ref := RefBlocks(SourceOf(rd.input), old(rd.Pos()), old(out[..pout]));
            ref.Done? && |ref.out| <= out.Length < WORD && ref.pos + SPARE_BITS < 8 * |rd.input| ==> r == EndBlock
  {
    hide *;
    ghost var src, p0, out0 := SourceOf(rd.input), rd.Pos(), out[..pout];
    pout' := pout;
    r := More;
    NotStopped(RefBlocks(src, p0, out0), rd.Pos(), 8 * |rd.input|, out.Length);
    while r == More
      invariant rd.Valid() && pout' <= out.Length
      invariant var ref := RefBlocks(src, p0, out0);
                && (r == More ==> ref == RefBlocks(src, rd.Pos(), out[..pout']))
                && (r == EndBlock ==> ref == Done(rd.Pos(), out[..pout']))
                && Explained(r, ref, rd.Pos(), 8 * |rd.input|, out.Length)
      decreases r == More, 8 * |rd.input| - rd.Pos()
    {
      PosBound(rd);
      r, pout' := InflateOne(rd, w, fixedLit, fixedDist, out, pout');
      PosBound(rd);
    }
    Accepted(r, RefBlocks(src, p0, out0), rd.Pos(), 8 * |rd.input|, out.Length);
  }

  lemma Accepted(r: Status, ref: Block, pos: nat, total: nat, room: nat)
    requires Explained(r, ref, pos, total, room) && r != More
    ensures ref.Done? && |ref.out| <= room < WORD && ref.pos + SPARE_BITS < total ==> r == EndBlock
  {
  }

  /** One block of the given kind, after its header. */
  method InflateKind(rd: Reader, w: Work, fixedLit: seq<nat>, fixedDist: seq<nat>, kind: nat, out: array<nat>,
      pout: nat)
    returns (r: Status, pout': nat)
    requires rd.Valid() && w.Valid() && pout <= out.Length && kind < 4
    requires out != w.table && out != w.dtable && out != w.next && out != w.plen
    requires Usable(fixedLit, FixedLiterals()) && Usable(fixedDist, FixedDistances())
    modifies rd, out, w.table, w.dtable, w.next, w.plen
    ensures rd.Valid() && pout' <= out.Length && rd.Pos() >= old(rd.Pos()) && r != More
    ensures var ref := RefOneBlock(SourceOf(rd.input), old(rd.Pos()), kind, old(out[..pout]));
            && (r == EndBlock ==> ref == Done(rd.Pos(), out[..pout']))
            && Explained(r, ref, rd.Pos(), 8 * |rd.input|, out.Length)
  {
    assert |fixedLit| == TABLE_SIZE && |fixedDist| == TABLE_SIZE;
    hide RefBlock; hide RefDynamic; hide FixedLiterals; hide FixedDistances; hide Usable; hide Stream;
    if kind == 1 {
      r, pout' := InflateBlock(rd, fixedLit, FixedLiterals(), fixedDist, FixedDistances(), out, pout);
    } else if kind == 2 {
      r, pout' := InflateDynamic(rd, w, out, pout);
    } else {
      return Corrupt, pout;
    }
  }

  /** One block with its header. */
  method InflateOne(rd: Reader, w: Work, fixedLit: seq<nat>, fixedDist: seq<nat>, out: array<nat>, pout: nat)
    returns (r: Status, pout': nat)
    requires rd.Valid() && w.Valid() && pout <= out.Length
    requires out != w.table && out != w.dtable && out != w.next && out != w.plen
    requires Usable(fixedLit, FixedLiterals()) && Usable(fixedDist, FixedDistances())
    modifies rd, out, w.table, w.dtable, w.next, w.plen
    ensures rd.Valid() && pout' <= out.Length
    ensures r == More ==> rd.Pos() > old(rd.Pos())
    ensures var src := SourceOf(rd.input);
            var ref := RefBlocks(src, old(rd.Pos()), old(out[..pout]));
            && (r == More ==> ref == RefBlocks(src, rd.Pos(), out[..pout']))
            && (r == EndBlock ==> ref == Done(rd.Pos(), out[..pout']))
            && Explained(r, ref, rd.Pos(), 8 * |rd.input|, out.Length)
  {
    hide *;
    ghost var src, p, out0 := SourceOf(rd.input), rd.Pos(), out[..pout];
    SourceFacts(rd.input);
    var ok, last, kind := ReadBlockHeader(rd);
    if !ok {
      HeaderShort(src, p, out0, out.Length);
      return ShortInput, pout;
    }
    BlocksUnfold(src, p, out0, last, kind);
    assert out[..pout] == out0;
    ghost var one, ref := RefOneBlock(src, p + 3, kind, out0), RefBlocks(src, p, out0);
    r, pout' := InflateKind(rd, w, fixedLit, fixedDist, kind, out, pout);
    if r == EndBlock && last == 0 {
      r := More;
    }
    BlockExplained(r, one, ref, src, rd.Pos(), out.Length);
  }

  lemma HeaderShort(src: Source, p: nat, out: seq<nat>, room: nat)
    requires p + SPARE_BITS >= src.total
    ensures Explained(ShortInput, RefBlocks(src, p, out), p, src.total, room)
  {
    hide RefBlocks;
  }

  /** A stop inside a block explains the stop of the run. */
  lemma BlockExplained(r: Status, one: Block, ref: Block, src: Source, pos: nat, room: nat)
    requires r == More || r == EndBlock || Explained(r, one, pos, src.total, room)
    requires !one.Done? ==> ref == one
    requires one.Done? && ref.Done? ==> one.pos <= ref.pos && |one.out| <= |ref.out|
    ensures Explained(r, ref, pos, src.total, room)
  {
  }

  method ReadBlockHeader(rd: Reader) returns (ok: bool, last: nat, kind: nat)
    requires rd.Valid()
    modifies rd
    ensures rd.Valid() && rd.Pos() >= old(rd.Pos())
    ensures ok ==> rd.Pos() == old(rd.Pos()) + 3 && old(rd.Pos()) + 3 <= 8 * |rd.input| && last < 2 && kind < 4
    ensures ok ==> last == Window(Stream(rd.input), old(rd.Pos()), 1)
    ensures ok ==> kind == Window(Stream(rd.input), old(rd.Pos()) + 1, 2)
    ensures !ok ==> rd.Pos() == old(rd.Pos()) && rd.Pos() + SPARE_BITS >= 8 * |rd.input|
  {
    Pow2Values();
    hide Stream; hide Window; hide Pow2;
    last, kind := 0, 0;
    ok := rd.Fetch();
    if !ok {
      return;
    }
    last := rd.Take(1);
    kind := rd.Take(2);
    PosBound(rd);
  }

  lemma BlocksUnfold(src: Source, p: nat, out: seq<nat>, last: nat, kind: nat)
    requires p + 3 <= src.total && last == Window(src.bits, p, 1) && kind == Window(src.bits, p + 1, 2)
    ensures var ref, one := RefBlocks(src, p, out), RefOneBlock(src, p + 3, kind, out);
            && (if one.Done? then (if last == 1 then ref == one else ref == RefBlocks(src, one.pos, one.out)) else ref == one)
            && (one.Done? && ref.Done? ==> one.pos <= ref.pos && |one.out| <= |ref.out|)
  {
    hide RefOneBlock; hide Window;
  }
}
