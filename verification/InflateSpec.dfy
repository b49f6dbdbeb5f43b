/**
 What a Huffman-coded block means: a decoder that reads one symbol at a time from a
 bit position, with the tables of section 3.2.5 of RFC 1951 written out.  Where the bits are
 no code, it reads what the decoding tables read.
 */
module InflateSpec {
  import opened Wrappers
  import opened Bits
  import opened Canonical
  import opened BitReader
  import opened HuffmanTable
  import opened HuffmanPlaces
  import opened MatchCopy

  const LENGTH_BASE: seq<nat> :=
    [3, 4, 5, 6, 7, 8, 9, 10, 11, 13, 15, 17, 19, 23, 27, 31, 35, 43, 51, 59, 67, 83, 99, 115, 131, 163, 195, 227, 258]
  const LENGTH_EXTRA: seq<nat> :=
    [0, 0, 0, 0, 0, 0, 0, 0, 1, 1, 1, 1, 2, 2, 2, 2, 3, 3, 3, 3, 4, 4, 4, 4, 5, 5, 5, 5, 0]
  const DISTANCE_BASE: seq<nat> :=
    [1, 2, 3, 4, 5, 7, 9, 13, 17, 25, 33, 49, 65, 97, 129, 193, 257, 385, 513, 769, 1025, 1537, 2049, 3073, 4097, 6145,
     8193, 12289, 16385, 24577]
  const DISTANCE_EXTRA: seq<nat> :=
    [0, 0, 0, 0, 1, 1, 2, 2, 3, 3, 4, 4, 5, 5, 6, 6, 7, 7, 8, 8, 9, 9, 10, 10, 11, 11, 12, 12, 13, 13]

  /** A bit string: the first total bits of the number bits. */
  datatype Source = Source(bits: nat, total: nat)

  /** The next bits at p are the code of s. */
  ghost predicate CodeHere(lens: seq<nat>, src: Source, p: nat, s: nat) {
    && s < |lens| && lens[s] >= 1 && p + lens[s] <= src.total
    && Matches(lens, s, Shr(src.bits, p))
  }

  /** The next symbol and how many bits it uses: the one whose code comes next.  If there is
      none, or the lengths do not make up a code, fifteen bits tell. */
  ghost function RefSymbol(lens: seq<nat>, src: Source, p: nat): (r: Option<(nat, nat)>)
    ensures r.Some? ==> 1 <= r.value.1 && p + r.value.1 <= src.total
  {
    if Kraft(lens) && exists s: nat :: CodeHere(lens, src, p, s) then
      var s: nat :| CodeHere(lens, src, p, s); Some((s, lens[s]))
    else if p + MAX_LENGTH <= src.total then
      MeaningBits(lens, Shr(src.bits, p));
      Some(Meaning(lens, Shr(src.bits, p)))
    else
      None
  }

  lemma MeaningBits(lens: seq<nat>, v: nat)
    ensures 1 <= Meaning(lens, v).1 <= MAX_LENGTH
  {
    hide Place; hide InLastBlock; hide Start; hide Pow2;
  }

  /** Short: the bits end before a code does.  Stored: a block that is not Huffman-coded.
      Crowded: the lengths are right, but their tables would be too large.  Invalid: any other
      error. */
  datatype Block = Done(pos: nat, out: seq<nat>) | Short | Stored | Crowded | Invalid

  /** The part of a match after its length symbol. */
  ghost function RefMatch(dist: seq<nat>, src: Source, p: nat, sym: nat, out: seq<nat>): (r: Block)
    requires 257 <= sym <= 285
    ensures r.Done? ==> p + LENGTH_EXTRA[sym - 257] < r.pos <= src.total && |r.out| >= |out|
  {
    var i := sym - 257;
    var q := p + LENGTH_EXTRA[i];
    var len := LENGTH_BASE[i] + Window(src.bits, p, LENGTH_EXTRA[i]);
    if q > src.total then Invalid
    else match RefSymbol(dist, src, q)
      case None => Short
      case Some((d, n)) => if d > 29 then Invalid else RefDistance(src, q + n, d, len, out)
  }

  /** The part of a match after its distance symbol. */
  ghost function RefDistance(src: Source, p: nat, d: nat, len: nat, out: seq<nat>): (r: Block)
    requires d <= 29
    ensures r.Done? ==> p <= r.pos <= src.total && |r.out| == |out| + len
  {
    var distance := DISTANCE_BASE[d] + Window(src.bits, p, DISTANCE_EXTRA[d]);
    if p + DISTANCE_EXTRA[d] > src.total || distance > |out| || distance < 1 then Invalid
    else Done(p + DISTANCE_EXTRA[d], RefCopy(out, distance, len))
  }

  ghost function RefBlock(lit: seq<nat>, dist: seq<nat>, src: Source, p: nat, out: seq<nat>): (r: Block)
    ensures r.Done? ==> p < r.pos <= src.total && |r.out| >= |out|
    decreases src.total - p
  {
    match RefSymbol(lit, src, p)
    case None => Short
    case Some((s, n)) =>
      var q := p + n;
      if s < 256 then RefBlock(lit, dist, src, q, out + [s])
      else if s == 256 then Done(q, out)
      else if s > 285 then Invalid
      else
        match RefMatch(dist, src, q, s, out)
        case Done(p', out') => RefBlock(lit, dist, src, p', out')
        case r => r
  }

  /** The symbol whose code comes next is read, and no other. */
  lemma SymbolUnique(lens: seq<nat>, src: Source, p: nat, s: nat)
    requires ValidLengths(lens) && Kraft(lens) && CodeHere(lens, src, p, s)
    ensures RefSymbol(lens, src, p) == Some((s, lens[s]))
  {
    hide Kraft; hide Meaning;
    var r := RefSymbol(lens, src, p);
    var u: nat :| CodeHere(lens, src, p, u) && r == Some((u, lens[u]));
    PrefixFree(lens, s, u, Shr(src.bits, p));
  }

  /** With fifteen bits at hand, they tell in any case. */
  lemma SymbolMeans(lens: seq<nat>, src: Source, p: nat)
    requires ValidLengths(lens) && p + MAX_LENGTH <= src.total
    ensures RefSymbol(lens, src, p) == Some(Meaning(lens, Shr(src.bits, p)))
  {
    hide Kraft; hide Meaning; hide Matches; hide Owns;
    if Kraft(lens) && exists s: nat :: CodeHere(lens, src, p, s) {
      var s: nat :| CodeHere(lens, src, p, s);
      SymbolUnique(lens, src, p, s);
      OwnerMatches(lens, s, Shr(src.bits, p));
      MeaningOwned(lens, Shr(src.bits, p), s);
    }
  }

  // ----- the code lengths of a dynamic block, section 3.2.7

  const LENGTH_ORDER: seq<nat> := [16, 17, 18, 0, 8, 7, 9, 6, 10, 5, 11, 4, 12, 3, 13, 2, 14, 1, 15]

  /** The lengths of the code length code: the first n of the 3-bit numbers at p, in order. */
  ghost function CodeBits(src: Source, p: nat, n: nat): (r: seq<nat>)
    requires n <= 19
    ensures |r| == 19
    ensures forall k :: 0 <= k < 19 ==> r[k] < 8
  {
    if n == 0 then seq(19, _ => 0)
    else
      assert Pow2(3) == 8;
      CodeBits(src, p, n - 1)[LENGTH_ORDER[n - 1] := Window(src.bits, p + 3 * (n - 1), 3)]
  }

  datatype Lengths = Read(pos: nat, lens: seq<nat>) | Cut | Bad

  /** Append n copies of x at the cost of bits up to position q. */
  ghost function RefRepeat(clens: seq<nat>, src: Source, q: nat, total: nat, acc: seq<nat>, x: nat,
      n: nat): (r: Lengths)
    requires n >= 1
    ensures r.Read? ==> r.pos >= q
    decreases total - |acc|, 0
  {
    if q > src.total || |acc| + n > total then Bad
    else RefLengths(clens, src, q, total, acc + Many(n, x))
  }

  /** What the symbol v of the code length code stands for; its extra bits are at q. */
  ghost function RefStore(clens: seq<nat>, src: Source, q: nat, total: nat, acc: seq<nat>, v: nat): (r: Lengths)
    requires |acc| < total
    ensures r.Read? ==> r.pos >= q
    decreases total - |acc|, 1
  {
    if v < 16 then RefLengths(clens, src, q, total, acc + [v])
    else if v == 16 then
      if |acc| == 0 then Bad
      else RefRepeat(clens, src, q + 2, total, acc, acc[|acc| - 1], 3 + Window(src.bits, q, 2))
    else if v == 17 then RefRepeat(clens, src, q + 3, total, acc, 0, 3 + Window(src.bits, q, 3))
    else if v == 18 then RefRepeat(clens, src, q + 7, total, acc, 0, 11 + Window(src.bits, q, 7))
    else Bad
  }

  ghost function RefLengths(clens: seq<nat>, src: Source, p: nat, total: nat, acc: seq<nat>): (r: Lengths)
    ensures r.Read? ==> r.pos >= p
    decreases total - |acc|, 2
  {
    if |acc| >= total then Read(p, acc)
    else match RefSymbol(clens, src, p)
      case None => Cut
      case Some((v, n)) => RefStore(clens, src, p + n, total, acc, v)
  }

  /** The lengths that are taken for a code: those of a code, and some over-subscribed sets. */
  ghost predicate DefinesCode(lens: seq<nat>) {
    ValidLengths(lens) && Fits(lens)
  }

  /** A block with its own codes, after the block header. */
  ghost function RefDynamic(src: Source, p: nat, out: seq<nat>): (r: Block)
    ensures r.Done? ==> p + 14 < r.pos <= src.total && |r.out| >= |out|
  {
    var nlit, ndist := Window(src.bits, p, 5) + 257, Window(src.bits, p + 5, 5) + 1;
    var nclen := Window(src.bits, p + 10, 4) + 4;
    assert Pow2(4) == 16;
    var q := p + 14 + 3 * nclen;
    if q > src.total || nlit > 286 || ndist > 30 then Invalid
    else
      var clens := CodeBits(src, p + 14, nclen);
      if !DefinesCode(clens) then Invalid
      else match RefLengths(clens, src, q, nlit + ndist, [])
        case Cut => Short
        case Bad => Invalid
        case Read(q', lens) =>
          if |lens| != nlit + ndist || lens[256] == 0 then Invalid
          else if !DefinesCode(lens[..nlit]) || !DefinesCode(lens[nlit..]) then Invalid
          else if !Room(lens[..nlit]) || !Room(lens[nlit..]) then Crowded
          else RefBlock(lens[..nlit], lens[nlit..], src, q', out)
  }

  // ----- a stream of blocks

  function FixedLiterals(): seq<nat> {
    Many(144, 8) + Many(112, 9) + Many(24, 7) + Many(8, 8)
  }

  function FixedDistances(): seq<nat> {
    Many(32, 5)
  }

  ghost function RefOneBlock(src: Source, p: nat, kind: nat, out: seq<nat>): (r: Block)
    ensures r.Done? ==> p < r.pos <= src.total && |r.out| >= |out|
  {
    if kind == 0 then Stored
    else if kind == 1 then RefBlock(FixedLiterals(), FixedDistances(), src, p, out)
    else if kind == 2 then RefDynamic(src, p, out)
    else Invalid
  }

  /** Blocks up to the one marked last. */
  ghost function RefBlocks(src: Source, p: nat, out: seq<nat>): (r: Block)
    ensures r.Done? ==> p + 3 < r.pos <= src.total && |r.out| >= |out|
    decreases src.total - p
  {
    if p + 3 > src.total then Invalid
    else
      var last, kind := Window(src.bits, p, 1), Window(src.bits, p + 1, 2);
      match RefOneBlock(src, p + 3, kind, out)
      case Done(q, out') => if last == 1 then Done(q, out') else RefBlocks(src, q, out')
      case r => r
  }

  // ----- the expressions that the inflater uses instead of the tables

  function LengthExtra(lit: nat): nat
    requires 265 <= lit < 285
  {
    (lit - 265) / 4 + 1
  }

  function LengthBase(lit: nat): int
    requires 265 <= lit < 285
  {
    ((lit - 265) % 4) * Pow2(LengthExtra(lit)) + 11 + (Pow2(LengthExtra(lit) - 1) - 1) * 8
  }

  function DistanceExtra(d: nat): nat
    requires 4 <= d <= 29
  {
    (d - 4) / 2 + 1
  }

  function DistanceBase(d: nat): int
    requires 4 <= d <= 29
  {
    ((d - 4) % 2) * Pow2(DistanceExtra(d)) + 5 + (Pow2(DistanceExtra(d) - 1) - 1) * 4
  }

  lemma LengthFormula(lit: nat)
    requires 265 <= lit < 285
    ensures LengthExtra(lit) == LENGTH_EXTRA[lit - 257] && LengthBase(lit) == LENGTH_BASE[lit - 257]
  {
    Pow2Values();
    hide Pow2;
    var g, r := (lit - 265) / 4, (lit - 265) % 4;
    assert lit == 265 + 4 * g + r;
    assert g == 0 || g == 1 || g == 2 || g == 3 || g == 4;
    assert r == 0 || r == 1 || r == 2 || r == 3;
  }

  lemma MorePowers()
    ensures Pow2(10) == 1024 && Pow2(11) == 2048 && Pow2(12) == 4096 && Pow2(13) == 8192
  {
    Pow2Values();
    assert Pow2(11) == 2 * Pow2(10);
    assert Pow2(13) == 2 * Pow2(12);
  }

  lemma DistanceFormula(d: nat)
    requires 4 <= d <= 29
    ensures DistanceExtra(d) == DISTANCE_EXTRA[d] && DistanceBase(d) == DISTANCE_BASE[d]
  {
    Pow2Values();
    MorePowers();
    hide Pow2;
    var g, r := (d - 4) / 2, (d - 4) % 2;
    assert d == 4 + 2 * g + r;
    assert r == 0 || r == 1;
    assert g == 0 || g == 1 || g == 2 || g == 3 || g == 4 || g == 5 || g == 6
      || g == 7 || g == 8 || g == 9 || g == 10 || g == 11 || g == 12;
  }
}
