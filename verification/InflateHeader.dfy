/**
 Reading the code lengths of a dynamic block.
 */
module InflateHeader {
  import opened Bits
  import opened Canonical
  import opened BitReader
  import opened HuffmanTable
  import opened HuffmanPlaces
  import opened MatchCopy
  import opened InflateSpec
  import opened Inflate

  /** The i-th of a row of 3-bit numbers.  Five of them use the fifteen bits of one fetch. */
  method ReadThree(rd: Reader, i: nat) returns (ok: bool, x: nat)
    requires rd.Valid() && (i % 5 != 0 ==> rd.bits >= 15 - 3 * (i % 5))
    modifies rd
    ensures rd.Valid() && rd.Pos() >= old(rd.Pos())
    ensures ok ==> rd.Pos() == old(rd.Pos()) + 3 && x == Window(Stream(rd.input), old(rd.Pos()), 3)
    ensures ok ==> (i + 1) % 5 != 0 ==> rd.bits >= 15 - 3 * ((i + 1) % 5)
    ensures !ok ==> rd.Pos() == old(rd.Pos()) && rd.Pos() + SPARE_BITS >= 8 * |rd.input|
  {
    hide Stream; hide Window; hide Pow2;
    ok, x := true, 0;
    if i % 5 == 0 {
      ok := rd.Fetch();
      if !ok {
        return;
      }
    }
    x := rd.Take(3);
  }

  /** The lengths of the code length code. */
  method ReadCodeBits(rd: Reader, nclen: nat) returns (ok: bool, codebits: array<nat>)
    requires rd.Valid() && 4 <= nclen <= 19
    modifies rd
    ensures rd.Valid() && rd.Pos() >= old(rd.Pos())
    ensures fresh(codebits)
    ensures ok ==> rd.Pos() == old(rd.Pos()) + 3 * nclen
                   && codebits[..] == CodeBits(SourceOf(rd.input), old(rd.Pos()), nclen)
    ensures !ok ==> rd.Pos() <= old(rd.Pos()) + 3 * nclen && rd.Pos() + SPARE_BITS >= 8 * |rd.input|
  {
    hide Stream; hide Window; hide Pow2; hide CodeBits;
    codebits := new nat[19](_ => 0);
    ghost var src, p := SourceOf(rd.input), rd.Pos();
    CodeBitsNone(src, p, codebits[..]);
    ok := true;
    for i := 0 to nclen
      invariant fresh(codebits) && rd.Valid() && rd.Pos() == p + 3 * i && ok
      invariant i % 5 != 0 ==> rd.bits >= 15 - 3 * (i % 5)
      invariant codebits[..] == CodeBits(src, p, i)
    {
      CodeBitsNext(src, p, i);
      ghost var before := codebits[..];
      var x;
      ok, x := ReadThree(rd, i);
      if !ok {
        return;
      }
      var k := LENGTH_ORDER[i];
      codebits[k] := x;
      assert codebits[..] == before[k := x];
    }
  }

  lemma CodeBitsNone(src: Source, p: nat, zeros: seq<nat>)
    requires |zeros| == 19 && forall k :: 0 <= k < 19 ==> zeros[k] == 0
    ensures CodeBits(src, p, 0) == zeros
  {
  }

  lemma CodeBitsNext(src: Source, p: nat, i: nat)
    requires i < 19
    ensures LENGTH_ORDER[i] < 19
    ensures CodeBits(src, p, i + 1) == CodeBits(src, p, i)[LENGTH_ORDER[i] := Window(src.bits, p + 3 * i, 3)]
  {
  }

  lemma LengthsUnfold(clens: seq<nat>, src: Source, p: nat, total: nat, acc: seq<nat>)
    requires |acc| < total
    ensures var ref := RefLengths(clens, src, p, total, acc);
            var r := RefSymbol(clens, src, p);
            && (r.None? ==> ref == Cut)
            && (r.Some? ==> ref == RefStore(clens, src, p + r.value.1, total, acc, r.value.0))
  {
    hide RefSymbol; hide RefStore; hide Window;
  }

  /** Why reading the lengths stopped at pos. */
  ghost predicate LengthsExplained(r: Status, ref: Lengths, pos: nat, total: nat) {
    ref.Read? ==> r != Corrupt && (r == ShortInput ==> pos <= ref.pos && pos + SPARE_BITS >= total)
  }

  /** Read a repeat count of n bits and store that many copies of x. */
  method ReadRepeat(rd: Reader, n: nat, least: nat, x: nat, plen: array<nat>, at: nat, total: nat,
      ghost clens: seq<nat>)
    returns (r: Status, at': nat)
    requires rd.Valid() && n <= rd.bits && at <= total <= plen.Length && least >= 1
    modifies rd, plen
    ensures rd.Valid() && at' <= total && rd.Pos() >= old(rd.Pos()) && r in {More, Corrupt}
    ensures r == More ==> at' > at
    ensures var ref := RefRepeat(clens, SourceOf(rd.input), old(rd.Pos()) + n, total, old(plen[..at]), x,
                                 least + Window(Stream(rd.input), old(rd.Pos()), n));
            if r == More then ref == RefLengths(clens, SourceOf(rd.input), rd.Pos(), total, plen[..at']) else ref == Bad
  {
    hide Stream; hide Window; hide Pow2; hide RefLengths;
    ghost var acc := plen[..at];
    var c := rd.Take(n);
    c := least + c;
    if total - at < c {
      return Corrupt, at;
    }
    MemSet(plen, at, x, c);
    at' := at + c;
    assert plen[..at'] == plen[..at] + plen[at..at'];
    assert plen[..at'] == acc + Many(c, x);
    assert |acc| == at;
    return More, at';
  }

  method StoreLength(rd: Reader, v: nat, ghost clens: seq<nat>, plen: array<nat>, at: nat, total: nat)
    returns (r: Status, at': nat)
    requires rd.Valid() && rd.bits >= 7 && at < total <= plen.Length
    modifies rd, plen
    ensures rd.Valid() && at' <= total && rd.Pos() >= old(rd.Pos()) && r in {More, Corrupt}
    ensures r == More ==> at' > at
    ensures var ref := RefStore(clens, SourceOf(rd.input), old(rd.Pos()), total, old(plen[..at]), v);
            if r == More then ref == RefLengths(clens, SourceOf(rd.input), rd.Pos(), total, plen[..at']) else ref == Bad
  {
    hide Stream; hide Window; hide Pow2; hide RefLengths; hide RefRepeat;
    ghost var acc := plen[..at];
    if v < 16 {
      plen[at] := v;
      assert plen[..at + 1] == acc + [v];
      return More, at + 1;
    } else if v == 16 {
      if at == 0 {
        return Corrupt, at;
      }
      assert acc[|acc| - 1] == plen[at - 1];
      r, at' := ReadRepeat(rd, 2, 3, plen[at - 1], plen, at, total, clens);
    } else if v == 17 {
      r, at' := ReadRepeat(rd, 3, 3, 0, plen, at, total, clens);
    } else if v == 18 {
      r, at' := ReadRepeat(rd, 7, 11, 0, plen, at, total, clens);
    } else {
      return Corrupt, at;
    }
  }

  /** One turn of the loop that reads lengths.  A symbol of the code length code and its extra
      bits fit in fifteen bits. */
  method ReadLength(rd: Reader, tclen: seq<nat>, ghost clens: seq<nat>, plen: array<nat>, at: nat, total: nat)
    returns (r: Status, at': nat)
    requires rd.Valid() && at < total <= plen.Length && |tclen| == TABLE_SIZE && ShortCodes(clens)
    modifies rd, plen
    ensures rd.Valid() && at' <= total && rd.Pos() >= old(rd.Pos()) && r in {More, Corrupt, ShortInput}
    ensures r == More ==> at' > at
    ensures Usable(tclen, clens) ==>
              var ref := RefLengths(clens, SourceOf(rd.input), old(rd.Pos()), total, old(plen[..at]));
              && (r == More ==> ref == RefLengths(clens, SourceOf(rd.input), rd.Pos(), total, plen[..at']))
              && LengthsExplained(r, ref, rd.Pos(), 8 * |rd.input|)
  {
    hide *;
    TableIndex(tclen);
    ghost var src, p, acc := SourceOf(rd.input), rd.Pos(), plen[..at];
    ghost var ref := RefLengths(clens, src, p, total, acc);
    LengthsUnfold(clens, src, p, total, acc);
    var ok := rd.Fetch();
    if !ok {
      ShortExplained(clens, src, p, total, acc, 8 * |rd.input|);
      return ShortInput, at;
    }
    NeverSecondary(tclen, clens, rd.val);
    if IsSecondary(tclen[rd.val % 256]) {
      return Corrupt, at;
    }
    var v := DecodeSymbol(rd, tclen, clens);
    r, at' := StoreLength(rd, v, clens, plen, at, total);
    StoredExplained(r, ref, rd.Pos(), 8 * |rd.input|);
  }

  lemma TableIndex(table: seq<nat>)
    requires |table| == TABLE_SIZE
    ensures |table| == 1024
  {
  }

  /** The lengths of the code length code are three-bit numbers. */
  ghost predicate ShortCodes(clens: seq<nat>) {
    forall k :: 0 <= k < |clens| ==> clens[k] < 8
  }

  lemma ShortExplained(clens: seq<nat>, src: Source, p: nat, total: nat, acc: seq<nat>, end: nat)
    requires p + SPARE_BITS >= end
    ensures LengthsExplained(ShortInput, RefLengths(clens, src, p, total, acc), p, end)
  {
    hide RefLengths;
  }

  lemma StoredExplained(r: Status, ref: Lengths, pos: nat, total: nat)
    requires r in {More, Corrupt}
    ensures r == More || ref == Bad ==> LengthsExplained(r, ref, pos, total)
  {
  }

  /** A secondary entry stands for a code of at least eight bits. */
  lemma NeverSecondary(table: seq<nat>, clens: seq<nat>, v: nat)
    requires |table| == TABLE_SIZE && ShortCodes(clens)
    ensures Usable(table, clens) ==> !IsSecondary(table[v % 256])
  {
    hide Lookup; hide Meaning; hide ShortCodes; hide IsSecondary;
    ShortMeaning(clens, v);
    if IsSecondary(table[v % 256]) {
      SecondaryBits(table, v);
    }
  }

  lemma SecondaryBits(table: seq<nat>, v: nat)
    requires |table| == TABLE_SIZE && IsSecondary(table[v % 256])
    ensures Lookup(table, v).1 >= 8
  {
  }

  /** With short codes all bits stand for symbols of less than eight. */
  lemma ShortMeaning(clens: seq<nat>, v: nat)
    requires ShortCodes(clens)
    ensures Meaning(clens, v).1 < 8
  {
    hide Place; hide Start; hide Pow2; hide End;
    NoLongEnd(clens, MAX_LENGTH);
  }

  lemma {:induction false} NoneCounted(lens: seq<nat>, n: nat, l: nat)
    requires n <= |lens| && forall k :: 0 <= k < n ==> lens[k] != l
    ensures CountUpTo(lens, n, l) == 0
  {
    if n > 0 {
      NoneCounted(lens, n - 1, l);
    }
  }

  lemma {:induction false} NoLongEnd(clens: seq<nat>, j: nat)
    requires ShortCodes(clens) && 8 <= j <= MAX_LENGTH
    ensures End(clens, j) == End(clens, 8)
  {
    hide End; hide CountUpTo;
    if j > 8 {
      NoLongEnd(clens, j - 1);
      NoneCounted(clens, |clens|, j);
      SkipsEnd(clens, j);
    }
  }

  method ReadLengths(rd: Reader, tclen: seq<nat>, ghost clens: seq<nat>, plen: array<nat>,
      total: nat) returns (r: Status)
    requires rd.Valid() && total <= plen.Length && |tclen| == TABLE_SIZE && ShortCodes(clens)
    modifies rd, plen
    ensures rd.Valid() && rd.Pos() >= old(rd.Pos()) && r in {More, Corrupt, ShortInput}
    ensures Usable(tclen, clens) ==>
              var ref := RefLengths(clens, SourceOf(rd.input), old(rd.Pos()), total, []);
              && (r == More ==> ref == Read(rd.Pos(), plen[..total]))
              && LengthsExplained(r, ref, rd.Pos(), 8 * |rd.input|)
  {
    ghost var src, p := SourceOf(rd.input), rd.Pos();
    var at := 0;
    assert plen[..at] == [];
    hide *;
    r := More;
    while at < total
      invariant at <= total && rd.Valid() && rd.Pos() >= p && r == More
      invariant Usable(tclen, clens) ==>
                var ref := RefLengths(clens, src, p, total, []);
                ref == RefLengths(clens, src, rd.Pos(), total, plen[..at])
    {
      r, at := ReadLength(rd, tclen, clens, plen, at, total);
      if r != More {
        return;
      }
    }
    StoredExplained(r, RefLengths(clens, src, p, total, []), rd.Pos(), 8 * |rd.input|);
    AllRead(clens, src, rd.Pos(), total, plen[..at]);
  }

  lemma AllRead(clens: seq<nat>, src: Source, p: nat, total: nat, acc: seq<nat>)
    requires |acc| >= total
    ensures RefLengths(clens, src, p, total, acc) == Read(p, acc)
  {
  }
}
