/**
 The inflate loop for one Huffman-coded block, over the bit buffer, the decoding tables
 and the output array.
 */
module Inflate {
  import opened Wrappers
  import opened Bits
  import opened Canonical
  import opened BitReader
  import opened MatchCopy
  import opened HuffmanTable
  import opened HuffmanPlaces
  import opened InflateSpec

  ghost function SourceOf(input: seq<nat>): Source {
    Source(Stream(input), 8 * |input|)
  }

  /** A table and the lengths it is for. */
  ghost predicate Usable(table: seq<nat>, lens: seq<nat>) {
    |table| == TABLE_SIZE && ValidLengths(lens) && Means(table, lens)
  }

  /** Fifteen buffered bits are enough to find the next symbol. */
  lemma BufferedCode(lens: seq<nat>, table: seq<nat>, src: Source, p: nat, val: nat, bits: nat)
    requires Usable(table, lens) && bits >= 15 && val == Window(src.bits, p, bits) && p + 15 <= src.total
    ensures RefSymbol(lens, src, p) == Some(Lookup(table, val))
  {
    hide Pow2; hide Lookup; hide Meaning; hide RefSymbol;
    SymbolMeans(lens, src, p);
    WindowAppend(src.bits, p, 15, bits - 15);
    MeaningLow(lens, val, Shr(src.bits, p));
  }

  lemma LookupBounds(table: seq<nat>, v: nat)
    requires |table| == TABLE_SIZE
    ensures Lookup(table, v).0 < 512 && 1 <= Lookup(table, v).1 <= 15
    ensures !IsSecondary(table[v % 256]) ==> Lookup(table, v).1 <= 8
  {
  }

  /** One lookup; it reads what the reference reads. */
  method DecodeSymbol(rd: Reader, table: seq<nat>, ghost lens: seq<nat>) returns (sym: nat)
    requires rd.Valid() && rd.bits >= 15 && |table| == TABLE_SIZE
    modifies rd
    ensures rd.Valid() && sym < 512 && rd.Pos() > old(rd.Pos())
    ensures Lookup(table, old(rd.val)) == (sym, rd.Pos() - old(rd.Pos()))
    ensures Usable(table, lens) ==>
              RefSymbol(lens, SourceOf(rd.input), old(rd.Pos())) == Some((sym, rd.Pos() - old(rd.Pos())))
    ensures !IsSecondary(table[old(rd.val) % 256]) ==> rd.bits >= old(rd.bits) - 8
  {
    if Usable(table, lens) {
      BufferedCode(lens, table, SourceOf(rd.input), rd.Pos(), rd.val, rd.bits);
    }
    LookupBounds(table, rd.val);
    hide Rev; hide Pow2; hide Lookup; hide Stream; hide Window; hide RefSymbol; hide Means;
    var (value, used) := Lookup(table, rd.val);
    sym := value;
    rd.Drop(used);
  }

  /** More: go on.  EndBlock: the stop code.  The rest are the error returns. */
  datatype Status = More | EndBlock | ShortInput | Corrupt | NoSpace

  /** Differences of pointers are cut to 32 bits before they are compared. */
  const WORD: nat := 0x1_0000_0000

  /** Why a run stopped at pos: with an output of less than 2^32 bytes it is refused for what the
      reference decoder refuses too, for lack of room, or close to the end of the input. */
  ghost predicate Explained(r: Status, ref: Block, pos: nat, total: nat, room: nat) {
    ref.Done? && room < WORD ==>
      && r != Corrupt
      && (r == NoSpace ==> |ref.out| > room)
      && (r == ShortInput ==> pos <= ref.pos && pos + SPARE_BITS >= total)
  }

  /** The length of a match, with its extra bits. */
  method DecodeLength(rd: Reader, lit: nat) returns (r: Status, len: nat)
    requires rd.Valid() && 257 <= lit
    modifies rd
    ensures rd.Valid() && rd.Pos() >= old(rd.Pos())
    ensures r in {More, ShortInput, Corrupt}
    ensures r == Corrupt <==> lit > 285
    ensures r == ShortInput ==> rd.Pos() == old(rd.Pos()) && rd.Pos() + SPARE_BITS >= 8 * |rd.input|
    ensures r == More ==>
              && rd.Pos() == old(rd.Pos()) + LENGTH_EXTRA[lit - 257]
              && len == LENGTH_BASE[lit - 257] + Window(Stream(rd.input), old(rd.Pos()), LENGTH_EXTRA[lit - 257])
  {
    hide Pow2; hide Stream; hide Window;
    len := 0;
    if lit < 265 {
      len := lit - 257 + 3;
      WindowEmpty(Stream(rd.input), rd.Pos());
    } else if lit == 285 {
      len := 258;
      WindowEmpty(Stream(rd.input), rd.Pos());
    } else if lit > 285 {
      return Corrupt, len;
    } else {
      LengthFormula(lit);
      var ok := rd.Fetch();
      if !ok {
        return ShortInput, len;
      }
      hide LengthBase; hide LengthExtra;
      var x := rd.Take(LengthExtra(lit));
      len := LengthBase(lit) + x;
    }
    return More, len;
  }

  /** The distance of a match, with its extra bits. */
  method DecodeDistance(rd: Reader, d: nat) returns (r: Status, distance: nat)
    requires rd.Valid()
    modifies rd
    ensures rd.Valid() && rd.Pos() >= old(rd.Pos())
    ensures r in {More, ShortInput, Corrupt}
    ensures r == Corrupt <==> d > 29
    ensures r == ShortInput ==> rd.Pos() == old(rd.Pos()) && rd.Pos() + SPARE_BITS >= 8 * |rd.input|
    ensures r == More ==>
              && rd.Pos() == old(rd.Pos()) + DISTANCE_EXTRA[d]
              && distance == DISTANCE_BASE[d] + Window(Stream(rd.input), old(rd.Pos()), DISTANCE_EXTRA[d])
  {
    hide Pow2; hide Stream; hide Window;
    distance := 0;
    if d > 29 {
      return Corrupt, distance;
    } else if d < 4 {
      distance := d + 1;
      WindowEmpty(Stream(rd.input), rd.Pos());
    } else {
      DistanceFormula(d);
      var ok := rd.Fetch();
      if !ok {
        return ShortInput, distance;
      }
      hide DistanceBase; hide DistanceExtra;
      var x := rd.Take(DistanceExtra(d));
      distance := DistanceBase(d) + x;
    }
    return More, distance;
  }

  /** The test of the distance: for distance 1 that there is output, otherwise on 32 bits. */
  predicate TooFar(pout: nat, d: nat, distance: nat) {
    if d == 0 then pout == 0 else pout % WORD < distance
  }

  /** The test is safe for all outputs, and wrong exactly for the distances within the output
      that are larger than its size on 32 bits; so it is right below 2^32 bytes. */
  lemma TooFarExactly(pout: nat, d: nat, distance: nat)
    requires distance >= 1 && (d == 0 ==> distance == 1)
    ensures (TooFar(pout, d, distance) <==> distance > pout) <==> !(d > 0 && pout % WORD < distance <= pout)
    ensures pout < WORD ==> (TooFar(pout, d, distance) <==> distance > pout)
    ensures !TooFar(pout, d, distance) ==> distance <= pout
  {
  }

  /** Behind 2^32 bytes of output a match at distance 2 is refused. */
  lemma FarOutputRefused()
    ensures 2 <= WORD && TooFar(WORD, 1, 2)
  {
  }

  /** The test of the room that is left, on 32 bits too. */
  predicate NoRoom(room: nat, len: nat) {
    room % WORD < len
  }

  /** It is safe, and wrong exactly for the matches that fit, but not into the room on 32 bits. */
  lemma NoRoomExactly(room: nat, len: nat)
    ensures (NoRoom(room, len) <==> len > room) <==> !(room % WORD < len <= room)
    ensures room < WORD ==> (NoRoom(room, len) <==> len > room)
    ensures !NoRoom(room, len) ==> len <= room
  {
  }

  /** With room for 2^32 bytes even the shortest match is refused. */
  lemma WideRoomRefused()
    ensures 3 <= WORD && NoRoom(WORD, 3)
  {
  }

  /** The distance that the bits at p stand for. */
  ghost function DistanceAt(input: seq<nat>, p: nat, d: nat): nat
    requires d <= 29
  {
    DISTANCE_BASE[d] + Window(Stream(input), p, DISTANCE_EXTRA[d])
  }

  /** The distance half of a match: copy from the output. */
  method FinishMatch(rd: Reader, d: nat, len: nat, out: array<nat>, pout: nat) returns (r: Status, pout': nat)
    requires rd.Valid() && pout <= out.Length
    modifies rd, out
    ensures rd.Valid() && pout' <= out.Length && r in {More, ShortInput, Corrupt, NoSpace}
    ensures rd.Pos() >= old(rd.Pos())
    ensures r != ShortInput ==> (r == Corrupt <==> d > 29 || TooFar(pout, d, DistanceAt(rd.input, old(rd.Pos()), d)))
    ensures r == More || r == NoSpace ==> (r == NoSpace <==> NoRoom(out.Length - pout, len))
    ensures r == More ==> d <= 29 && pout' == pout + len
                          && RefDistance(SourceOf(rd.input), old(rd.Pos()), d, len, old(out[..pout])) == Done(rd.Pos(),
                             out[..pout'])
    ensures d <= 29 ==> Explained(r, RefDistance(SourceOf(rd.input), old(rd.Pos()), d, len, old(out[..pout])),
                                  rd.Pos(), 8 * |rd.input|, out.Length)
  {
    hide Pow2; hide Stream; hide Window; hide RefCopy;
    pout' := pout;
    var distance;
    r, distance := DecodeDistance(rd, d);
    if r != More {
      return;
    }
    assert |out[..pout]| == pout;
    DistanceOne(rd.input, old(rd.Pos()), d);
    TooFarExactly(pout, d, distance);
    if d == 0 {
      if pout == 0 {
        return Corrupt, pout;
      }
    } else if pout % WORD < distance {
      return Corrupt, pout;
    }
    NoRoomExactly(out.Length - pout, len);
    if (out.Length - pout) % WORD < len {
      return NoSpace, pout;
    }
    CopyMatch(out, pout, distance, len);
    pout' := pout + len;
  }

  lemma DistanceOne(input: seq<nat>, p: nat, d: nat)
    requires d <= 29
    ensures DistanceAt(input, p, d) >= 1 && (d == 0 ==> DistanceAt(input, p, d) == 1)
  {
    hide Pow2; hide Stream; hide Window;
    WindowEmpty(Stream(input), p);
  }

  /** A whole match, after its length symbol. */
  method InflateMatch(rd: Reader, sym: nat, tdist: seq<nat>, ghost dist: seq<nat>, out: array<nat>, pout: nat)
    returns (r: Status, pout': nat)
    requires rd.Valid() && pout <= out.Length && 257 <= sym && |tdist| == TABLE_SIZE
    modifies rd, out
    ensures rd.Valid() && pout' <= out.Length && r in {More, ShortInput, Corrupt, NoSpace}
    ensures sym <= 285 && Usable(tdist, dist) ==>
              var ref := RefMatch(dist, SourceOf(rd.input), old(rd.Pos()), sym, old(out[..pout]));
              && (r == More ==> ref == Done(rd.Pos(), out[..pout']))
              && Explained(r, ref, rd.Pos(), 8 * |rd.input|, out.Length)
    ensures sym > 285 ==> r == Corrupt
    ensures rd.Pos() >= old(rd.Pos()) && (r == More ==> rd.Pos() > old(rd.Pos()))
  {
    hide Pow2; hide Stream; hide Window; hide RefCopy; hide RefSymbol; hide Usable; hide RefDistance;
    pout' := pout;
    var len;
    r, len := DecodeLength(rd, sym);
    if r != More {
      return;
    }
    var ok := rd.Fetch();
    if !ok {
      return ShortInput, pout;
    }
    var d := DecodeSymbol(rd, tdist, dist);
    r, pout' := FinishMatch(rd, d, len, out, pout);
  }

  /** One turn of the main loop. */
  method InflateSymbol(rd: Reader, tlit: seq<nat>, ghost lit: seq<nat>, tdist: seq<nat>, ghost dist: seq<nat>,
      out: array<nat>, pout: nat)
    returns (r: Status, pout': nat)
    requires rd.Valid() && pout <= out.Length && |tlit| == TABLE_SIZE && |tdist| == TABLE_SIZE
    modifies rd, out
    ensures rd.Valid() && pout' <= out.Length && rd.Pos() >= old(rd.Pos())
    ensures r == More ==> rd.Pos() > old(rd.Pos())
    ensures Usable(tlit, lit) && Usable(tdist, dist) ==>
            var src := SourceOf(rd.input);
            var ref := RefBlock(lit, dist, src, old(rd.Pos()), old(out[..pout]));
            && (r == More ==> ref == RefBlock(lit, dist, src, rd.Pos(), out[..pout']))
            && (r == EndBlock ==> ref == Done(rd.Pos(), out[..pout']))
            && Explained(r, ref, rd.Pos(), 8 * |rd.input|, out.Length)
  {
    hide Pow2; hide Stream; hide Window; hide RefCopy; hide RefSymbol; hide Usable; hide RefMatch;
    pout' := pout;
    hide RefBlock; hide SourceOf;
    ghost var src, p, before := SourceOf(rd.input), rd.Pos(), out[..pout];
    BlockUnfold(lit, dist, src, p, before);
    var ok := rd.Fetch();
    if !ok {
      return ShortInput, pout;
    }
    var sym := DecodeSymbol(rd, tlit, lit);
    if sym < 256 {
      if pout == out.Length {
        return NoSpace, pout;
      }
      out[pout] := sym;
      pout' := pout + 1;
      assert out[..pout'] == before + [sym];
      r := More;
    } else if sym == 256 {
      r := EndBlock;
    } else {
      r, pout' := InflateMatch(rd, sym, tdist, dist, out, pout);
    }
  }

  lemma BlockUnfold(lit: seq<nat>, dist: seq<nat>, src: Source, p: nat, out: seq<nat>)
    ensures var ref := RefBlock(lit, dist, src, p, out);
            var r := RefSymbol(lit, src, p);
            && (r.None? ==> ref == Short)
            && (r.Some? ==>
                  var s, q := r.value.0, p + r.value.1;
                  && (s < 256 ==> ref == RefBlock(lit, dist, src, q, out + [s]))
                  && (s == 256 ==> ref == Done(q, out))
                  && (s > 285 ==> ref == Invalid)
                  && (256 < s <= 285 ==>
                        var m := RefMatch(dist, src, q, s, out);
                        if m.Done? then ref == RefBlock(lit, dist, src, m.pos, m.out) else ref == m))
  {
    hide RefSymbol; hide RefMatch;
  }

  /** Inflate a block.  When it ends, position and output are those of the reference decoder. */
  method InflateBlock(rd: Reader, tlit: seq<nat>, ghost lit: seq<nat>, tdist: seq<nat>, ghost dist: seq<nat>,
      out: array<nat>, pout: nat)
    returns (r: Status, pout': nat)
    requires rd.Valid() && pout <= out.Length && |tlit| == TABLE_SIZE && |tdist| == TABLE_SIZE
    modifies rd, out
    ensures rd.Valid() && pout' <= out.Length && r != More && rd.Pos() >= old(rd.Pos())
    ensures Usable(tlit, lit) && Usable(tdist, dist) ==>
            var ref := RefBlock(lit, dist, SourceOf(rd.input), old(rd.Pos()), old(out[..pout]));
            && (r == EndBlock ==> ref == Done(rd.Pos(), out[..pout']))
            && Explained(r, ref, rd.Pos(), 8 * |rd.input|, out.Length)
  {
    hide *;
    pout' := pout;
    ghost var src, p0, out0 := SourceOf(rd.input), rd.Pos(), out[..pout];
    r := More;
    NotStopped(RefBlock(lit, dist, src, p0, out0), rd.Pos(), 8 * |rd.input|, out.Length);
    while r == More
      invariant rd.Valid() && pout' <= out.Length && rd.Pos() >= p0
      invariant Usable(tlit, lit) && Usable(tdist, dist) ==>
                var ref := RefBlock(lit, dist, src, p0, out0);
                && (r == More ==> ref == RefBlock(lit, dist, src, rd.Pos(), out[..pout']))
                && (r == EndBlock ==> ref == Done(rd.Pos(), out[..pout']))
                && Explained(r, ref, rd.Pos(), 8 * |rd.input|, out.Length)
      decreases r == More, 8 * |rd.input| - rd.Pos()
    {
      PosBound(rd);
      r, pout' := InflateSymbol(rd, tlit, lit, tdist, dist, out, pout');
      PosBound(rd);
    }
  }

  lemma NotStopped(ref: Block, pos: nat, total: nat, room: nat)
    ensures Explained(More, ref, pos, total, room)
  {
  }

  lemma PosBound(rd: Reader)
    requires rd.Valid()
    ensures rd.Pos() <= 8 * |rd.input|
  {
  }
}
