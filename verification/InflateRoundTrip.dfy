/**
 Encoding for the inflater: tokens, code lengths and block headers as bits, and the proof that
 the reference decoder reads them back.
 */
module InflateRoundTrip {
  import opened Wrappers
  import opened Bits
  import opened Canonical
  import opened BitReader
  import opened MatchCopy
  import opened HuffmanPlaces
  import opened InflateSpec
  import opened Inflate
  import opened InflateStream
  import opened FixedTables

  // ----- bit strings

  /** size bits, the first one lowest. */
  datatype Field = Field(bits: nat, size: nat) {
    ghost predicate Valid() {
      bits < Pow2(size)
    }
  }

  /** b behind a. */
  ghost function Join(a: Field, b: Field): (r: Field)
    requires a.Valid() && b.Valid()
    ensures r.Valid() && r.size == a.size + b.size
  {
    JoinFits(a, b);
    Field(a.bits + b.bits * Pow2(a.size), a.size + b.size)
  }

  lemma JoinFits(a: Field, b: Field)
    requires a.Valid() && b.Valid()
    ensures 0 <= a.bits + b.bits * Pow2(a.size) < Pow2(a.size + b.size)
  {
    Pow2Add(b.size, a.size);
    hide Pow2;
    MulMono(0, b.bits, Pow2(a.size));
    MulMono(b.bits + 1, Pow2(b.size), Pow2(a.size));
    MulDist(b.bits, 1, Pow2(a.size));
  }

  /** The bits at p are these. */
  ghost predicate Holds(src: Source, p: nat, f: Field) {
    p + f.size <= src.total && Window(src.bits, p, f.size) == f.bits
  }

  lemma HoldsJoin(src: Source, p: nat, a: Field, b: Field)
    requires a.Valid() && b.Valid() && Holds(src, p, Join(a, b))
    ensures Holds(src, p, a) && Holds(src, p + a.size, b)
  {
    WindowAppend(src.bits, p, a.size, b.size);
    hide Pow2; hide Window;
    var w := Pow2(a.size);
    DivModUnique(a.bits + b.bits * w, w, b.bits, a.bits);
  }

  /** The code of a symbol, first bit first. */
  ghost function SymbolField(lens: seq<nat>, s: nat): (r: Field)
    requires s < |lens| && lens[s] >= 1
    ensures r.Valid()
  {
    Field(Rev(lens[s], Code(lens, s)), lens[s])
  }

  ghost predicate HasCode(lens: seq<nat>, s: nat) {
    ValidLengths(lens) && Kraft(lens) && s < |lens| && lens[s] >= 1
  }

  lemma SymbolRead(lens: seq<nat>, src: Source, p: nat, s: nat)
    requires HasCode(lens, s) && Holds(src, p, SymbolField(lens, s))
    ensures RefSymbol(lens, src, p) == Some((s, lens[s]))
  {
    hide Kraft; hide RefSymbol; hide Rev; hide Code; hide Pow2;
    assert CodeHere(lens, src, p, s);
    SymbolUnique(lens, src, p, s);
  }

  // ----- the symbols of a block

  /** A byte, or a copy: its length and distance symbols with their extra bits. */
  datatype Token = Byte(b: nat) | Copy(l: nat, lx: nat, d: nat, dx: nat)

  ghost function LengthBits(l: nat): nat
    requires 257 <= l <= 285
  {
    LENGTH_EXTRA[l - 257]
  }

  ghost function DistanceBits(d: nat): nat
    requires d <= 29
  {
    DISTANCE_EXTRA[d]
  }

  ghost predicate TokenOk(lit: seq<nat>, dist: seq<nat>, t: Token) {
    match t
    case Byte(b) => b < 256 && HasCode(lit, b)
    case Copy(l, lx, d, dx) =>
      && 257 <= l <= 285 && HasCode(lit, l) && lx < Pow2(LengthBits(l))
      && d <= 29 && HasCode(dist, d) && dx < Pow2(DistanceBits(d))
  }

  ghost predicate TokensOk(lit: seq<nat>, dist: seq<nat>, ts: seq<Token>) {
    HasCode(lit, 256) && forall i :: 0 <= i < |ts| ==> TokenOk(lit, dist, ts[i])
  }

  ghost function LengthOf(t: Token): nat
    requires t.Copy? && 257 <= t.l <= 285
  {
    LENGTH_BASE[t.l - 257] + t.lx
  }

  ghost function DistanceOf(t: Token): nat
    requires t.Copy? && t.d <= 29
  {
    DISTANCE_BASE[t.d] + t.dx
  }

  ghost function DistanceField(dist: seq<nat>, t: Token): (r: Field)
    requires t.Copy? && t.d <= 29 && HasCode(dist, t.d) && t.dx < Pow2(DistanceBits(t.d))
    ensures r.Valid()
  {
    Join(SymbolField(dist, t.d), Field(t.dx, DistanceBits(t.d)))
  }

  ghost function LengthField(lit: seq<nat>, t: Token): (r: Field)
    requires t.Copy? && 257 <= t.l <= 285 && HasCode(lit, t.l) && t.lx < Pow2(LengthBits(t.l))
    ensures r.Valid()
  {
    Join(SymbolField(lit, t.l), Field(t.lx, LengthBits(t.l)))
  }

  ghost function TokenField(lit: seq<nat>, dist: seq<nat>, t: Token): (r: Field)
    requires TokenOk(lit, dist, t)
    ensures r.Valid()
  {
    match t
    case Byte(b) => SymbolField(lit, b)
    case Copy(_, _, _, _) => Join(LengthField(lit, t), DistanceField(dist, t))
  }

  /** The tokens and the end of the block. */
  ghost function BlockField(lit: seq<nat>, dist: seq<nat>, ts: seq<Token>): (r: Field)
    requires TokensOk(lit, dist, ts)
    ensures r.Valid()
  {
    if ts == [] then SymbolField(lit, 256)
    else Join(TokenField(lit, dist, ts[0]), BlockField(lit, dist, ts[1..]))
  }

  /** What the tokens stand for, after out. */
  ghost predicate Expandable(out: seq<nat>, ts: seq<Token>)
    decreases |ts|
  {
    ts == [] ||
    match ts[0]
    case Byte(b) => Expandable(out + [b], ts[1..])
    case Copy(l, lx, d, dx) =>
      && 257 <= l <= 285 && d <= 29 && 1 <= DistanceOf(ts[0]) <= |out|
      && Expandable(RefCopy(out, DistanceOf(ts[0]), LengthOf(ts[0])), ts[1..])
  }

  ghost function Expand(out: seq<nat>, ts: seq<Token>): seq<nat>
    requires Expandable(out, ts)
    decreases |ts|
  {
    if ts == [] then out
    else
      match ts[0]
      case Byte(b) => Expand(out + [b], ts[1..])
      case Copy(_, _, _, _) => Expand(RefCopy(out, DistanceOf(ts[0]), LengthOf(ts[0])), ts[1..])
  }

  lemma HeldBits(src: Source, p: nat, f: Field)
    requires Holds(src, p, f)
    ensures p + f.size <= src.total && Window(src.bits, p, f.size) == f.bits
  {
  }

  lemma SymbolSize(lens: seq<nat>, s: nat)
    requires HasCode(lens, s)
    ensures s < |lens| && lens[s] >= 1 && SymbolField(lens, s).Valid() && SymbolField(lens, s).size == lens[s]
  {
  }

  /** A symbol with its extra bits. */
  lemma ExtraRead(lens: seq<nat>, src: Source, p: nat, s: nat, x: nat, n: nat)
    requires HasCode(lens, s) && x < Pow2(n) && Holds(src, p, Join(SymbolField(lens, s), Field(x, n)))
    ensures RefSymbol(lens, src, p) == Some((s, lens[s]))
    ensures p + lens[s] + n <= src.total && Window(src.bits, p + lens[s], n) == x
    ensures Join(SymbolField(lens, s), Field(x, n)).size == lens[s] + n
  {
    hide *;
    SymbolSize(lens, s);
    FieldFits(x, n);
    HoldsJoin(src, p, SymbolField(lens, s), Field(x, n));
    SymbolRead(lens, src, p, s);
    HeldBits(src, p + lens[s], Field(x, n));
  }

  lemma FieldFits(x: nat, n: nat)
    requires x < Pow2(n)
    ensures Field(x, n).Valid()
  {
  }

  lemma CopyParts(lit: seq<nat>, dist: seq<nat>, t: Token)
    requires TokenOk(lit, dist, t) && t.Copy?
    ensures 257 <= t.l <= 285 && HasCode(lit, t.l) && t.lx < Pow2(LengthBits(t.l))
    ensures t.d <= 29 && HasCode(dist, t.d) && t.dx < Pow2(DistanceBits(t.d))
    ensures var x, y := LengthField(lit, t), DistanceField(dist, t);
            && x == Join(SymbolField(lit, t.l), Field(t.lx, LengthBits(t.l)))
            && y == Join(SymbolField(dist, t.d), Field(t.dx, DistanceBits(t.d)))
            && x.Valid() && y.Valid() && TokenField(lit, dist, t) == Join(x, y)
  {
    hide HasCode; hide SymbolField; hide Join; hide Pow2;
  }

  lemma DistanceIs(src: Source, p: nat, t: Token, len: nat, out: seq<nat>)
    requires t.Copy? && t.d <= 29 && 1 <= DistanceOf(t) <= |out|
    requires p + DistanceBits(t.d) <= src.total && Window(src.bits, p, DistanceBits(t.d)) == t.dx
    ensures RefDistance(src, p, t.d, len, out) == Done(p + DistanceBits(t.d), RefCopy(out, DistanceOf(t), len))
  {
    hide Window; hide RefCopy;
  }

  /** A match whose parts are read. */
  lemma MatchIs(dist: seq<nat>, src: Source, p: nat, t: Token, n: nat, out: seq<nat>)
    requires t.Copy? && 257 <= t.l <= 285 && t.d <= 29 && n >= 1
    requires p + LengthBits(t.l) <= src.total && Window(src.bits, p, LengthBits(t.l)) == t.lx
    requires RefSymbol(dist, src, p + LengthBits(t.l)) == Some((t.d, n))
    ensures RefMatch(dist, src, p, t.l, out) == RefDistance(src, p + LengthBits(t.l) + n, t.d, LengthOf(t), out)
  {
    hide RefSymbol; hide Window; hide RefDistance;
  }

  lemma CopyRead(lit: seq<nat>, dist: seq<nat>, src: Source, p: nat, t: Token, out: seq<nat>)
    requires TokenOk(lit, dist, t) && t.Copy? && Holds(src, p, TokenField(lit, dist, t))
    requires 1 <= DistanceOf(t) <= |out|
    ensures RefSymbol(lit, src, p) == Some((t.l, lit[t.l]))
    ensures RefMatch(dist, src, p + lit[t.l], t.l, out) ==
            Done(p + TokenField(lit, dist, t).size, RefCopy(out, DistanceOf(t), LengthOf(t)))
  {
    hide *;
    CopyParts(lit, dist, t);
    HoldsJoin(src, p, LengthField(lit, t), DistanceField(dist, t));
    ExtraRead(lit, src, p, t.l, t.lx, LengthBits(t.l));
    var q := p + LengthField(lit, t).size;
    ExtraRead(dist, src, q, t.d, t.dx, DistanceBits(t.d));
    SymbolSize(lit, t.l);
    SymbolSize(dist, t.d);
    MatchIs(dist, src, p + lit[t.l], t, dist[t.d], out);
    DistanceIs(src, q + dist[t.d], t, LengthOf(t), out);
  }

  /** The round trip of a block: tokens, coded with any two codes, are read back. */
  lemma {:induction false} BlockRead(lit: seq<nat>, dist: seq<nat>, src: Source, p: nat, ts: seq<Token>, out: seq<nat>)
    requires TokensOk(lit, dist, ts) && Expandable(out, ts) && Holds(src, p, BlockField(lit, dist, ts))
    ensures RefBlock(lit, dist, src, p, out) == Done(p + BlockField(lit, dist, ts).size, Expand(out, ts))
    decreases |ts|
  {
    hide RefSymbol; hide TokenField; hide SymbolField; hide RefMatch; hide Holds; hide Pow2; hide HasCode; hide RefCopy;
    if ts == [] {
      SymbolRead(lit, src, p, 256);
      SymbolSize(lit, 256);
    } else {
      var t, rest := ts[0], ts[1..];
      HoldsJoin(src, p, TokenField(lit, dist, t), BlockField(lit, dist, rest));
      var q := p + TokenField(lit, dist, t).size;
      if t.Byte? {
        ByteRead(lit, dist, src, p, t);
        BlockRead(lit, dist, src, q, rest, out + [t.b]);
      } else {
        CopyRead(lit, dist, src, p, t, out);
        BlockRead(lit, dist, src, q, rest, RefCopy(out, DistanceOf(t), LengthOf(t)));
      }
    }
  }

  lemma ByteRead(lit: seq<nat>, dist: seq<nat>, src: Source, p: nat, t: Token)
    requires TokenOk(lit, dist, t) && t.Byte? && Holds(src, p, TokenField(lit, dist, t))
    ensures t.b < |lit| && RefSymbol(lit, src, p) == Some((t.b, lit[t.b]))
    ensures TokenField(lit, dist, t).size == lit[t.b]
  {
    hide RefSymbol; hide SymbolField; hide Holds; hide Pow2;
    SymbolRead(lit, src, p, t.b);
    SymbolSize(lit, t.b);
  }

  // ----- every length and every distance has symbols

  /** The next base is not beyond the extra bits. */
  lemma LengthGap(l: nat)
    requires 257 <= l <= 285
    ensures l < 285 ==> LENGTH_BASE[l - 256] <= LENGTH_BASE[l - 257] + Pow2(LengthBits(l))
    ensures Pow2(LengthBits(l)) >= 1
  {
    Pow2Values();
    hide Pow2;
  }

  lemma DistanceGap(d: nat)
    requires d <= 29
    ensures d < 29 ==> DISTANCE_BASE[d + 1] <= DISTANCE_BASE[d] + Pow2(DistanceBits(d))
    ensures d == 29 ==> DISTANCE_BASE[d] + Pow2(DistanceBits(d)) == 32769
  {
    Pow2Values();
    MorePowers();
    hide Pow2;
  }

  lemma EveryLength(len: nat) returns (l: nat, lx: nat)
    requires 3 <= len <= 258
    ensures 257 <= l <= 285 && lx < Pow2(LengthBits(l)) && LENGTH_BASE[l - 257] + lx == len
  {
    hide Pow2; hide LengthBits;
    l := 285;
    while LENGTH_BASE[l - 257] > len
      invariant 257 <= l <= 285 && (l < 285 ==> len < LENGTH_BASE[l - 256])
    {
      l := l - 1;
    }
    lx := len - LENGTH_BASE[l - 257];
    LengthGap(l);
  }

  lemma EveryDistance(distance: nat) returns (d: nat, dx: nat)
    requires 1 <= distance <= 32768
    ensures d <= 29 && dx < Pow2(DistanceBits(d)) && DISTANCE_BASE[d] + dx == distance
  {
    hide Pow2; hide DistanceBits;
    d := 29;
    while DISTANCE_BASE[d] > distance
      invariant d <= 29 && (d < 29 ==> distance < DISTANCE_BASE[d + 1])
    {
      d := d - 1;
    }
    dx := distance - DISTANCE_BASE[d];
    DistanceGap(d);
  }

  // ----- code lengths

  /** One length, or three or more: of the one before, of 0, or eleven or more of 0; with the
      value of the extra bits. */
  datatype Run = One(v: nat) | Again(x: nat) | Zeros(x: nat) | ManyZeros(x: nat)

  ghost function RunSymbol(r: Run): nat {
    match r
    case One(v) => v
    case Again(_) => 16
    case Zeros(_) => 17
    case ManyZeros(_) => 18
  }

  ghost predicate RunOk(clens: seq<nat>, r: Run) {
    HasCode(clens, RunSymbol(r)) &&
    match r
    case One(v) => v < 16
    case Again(x) => x < 4
    case Zeros(x) => x < 8
    case ManyZeros(x) => x < 128
  }

  ghost function RunExtra(r: Run): Field {
    match r
    case One(_) => Field(0, 0)
    case Again(x) => Field(x, 2)
    case Zeros(x) => Field(x, 3)
    case ManyZeros(x) => Field(x, 7)
  }

  ghost function RunField(clens: seq<nat>, r: Run): (f: Field)
    requires RunOk(clens, r)
    ensures f.Valid() && RunExtra(r).Valid()
  {
    Pow2Values();
    Join(SymbolField(clens, RunSymbol(r)), RunExtra(r))
  }

  /** The lengths that a run adds to acc. */
  ghost function RunLengths(acc: seq<nat>, r: Run): seq<nat> {
    match r
    case One(v) => [v]
    case Again(x) => if acc == [] then [] else Many(3 + x, acc[|acc| - 1])
    case Zeros(x) => Many(3 + x, 0)
    case ManyZeros(x) => Many(11 + x, 0)
  }

  ghost predicate RunsOk(clens: seq<nat>, acc: seq<nat>, rs: seq<Run>, total: nat)
    decreases |rs|
  {
    if rs == [] then |acc| == total
    else
      && RunOk(clens, rs[0]) && (rs[0].Again? ==> acc != [])
      && |acc + RunLengths(acc, rs[0])| <= total
      && RunsOk(clens, acc + RunLengths(acc, rs[0]), rs[1..], total)
  }

  ghost function AllLengths(acc: seq<nat>, rs: seq<Run>): seq<nat>
    decreases |rs|
  {
    if rs == [] then acc else AllLengths(acc + RunLengths(acc, rs[0]), rs[1..])
  }

  ghost function RunsField(clens: seq<nat>, acc: seq<nat>, rs: seq<Run>, total: nat): (f: Field)
    requires RunsOk(clens, acc, rs, total)
    ensures f.Valid()
    decreases |rs|
  {
    if rs == [] then Nothing()
    else Join(RunField(clens, rs[0]), RunsField(clens, acc + RunLengths(acc, rs[0]), rs[1..], total))
  }

  ghost function Nothing(): (f: Field)
    ensures f.Valid() && f.size == 0
  {
    Field(0, 0)
  }

  lemma RunRead(clens: seq<nat>, src: Source, p: nat, total: nat, acc: seq<nat>, r: Run)
    requires RunOk(clens, r) && Holds(src, p, RunField(clens, r)) && (r.Again? ==> acc != [])
    requires |acc| < total && |acc + RunLengths(acc, r)| <= total
    ensures RefLengths(clens, src, p, total, acc) ==
            RefLengths(clens, src, p + RunField(clens, r).size, total, acc + RunLengths(acc, r))
  {
    hide RefSymbol; hide Pow2; hide Window; hide HasCode; hide SymbolField; hide Holds; hide Join;
    var s := RunSymbol(r);
    Pow2Values();
    RunParts(clens, r);
    SymbolSize(clens, s);
    ExtraRead(clens, src, p, s, RunExtra(r).bits, RunExtra(r).size);
    var q := p + clens[s];
    StoreIs(clens, src, q, total, acc, r);
  }

  lemma RunParts(clens: seq<nat>, r: Run)
    requires RunOk(clens, r)
    ensures var s := RunSymbol(r);
            && HasCode(clens, s) && RunExtra(r).bits < Pow2(RunExtra(r).size)
            && RunField(clens, r) == Join(SymbolField(clens, s), Field(RunExtra(r).bits, RunExtra(r).size))
  {
    hide HasCode; hide SymbolField; hide Join;
    Pow2Values();
  }

  lemma StoreIs(clens: seq<nat>, src: Source, q: nat, total: nat, acc: seq<nat>, r: Run)
    requires |acc| < total && |acc + RunLengths(acc, r)| <= total && (r.Again? ==> acc != []) && (r.One? ==> r.v < 16)
    requires q + RunExtra(r).size <= src.total && Window(src.bits, q, RunExtra(r).size) == RunExtra(r).bits
    ensures RefStore(clens, src, q, total, acc, RunSymbol(r)) ==
            RefLengths(clens, src, q + RunExtra(r).size, total, acc + RunLengths(acc, r))
  {
    hide RefLengths; hide Window; hide Many;
  }

  /** The round trip of the code lengths. */
  lemma {:induction false} RunsRead(clens: seq<nat>, src: Source, p: nat, total: nat, acc: seq<nat>, rs: seq<Run>)
    requires RunsOk(clens, acc, rs, total) && Holds(src, p, RunsField(clens, acc, rs, total))
    ensures RefLengths(clens, src, p, total, acc) ==
            Read(p + RunsField(clens, acc, rs, total).size, AllLengths(acc, rs))
    ensures |AllLengths(acc, rs)| == total
    decreases |rs|
  {
    hide RefSymbol; hide Pow2; hide Window; hide HasCode; hide RunField; hide Holds; hide Join; hide RefStore;
    hide RunOk;
    if rs != [] {
      var next := acc + RunLengths(acc, rs[0]);
      HoldsJoin(src, p, RunField(clens, rs[0]), RunsField(clens, next, rs[1..], total));
      JoinSize(RunField(clens, rs[0]), RunsField(clens, next, rs[1..], total));
      RunGrows(acc, rs[0]);
      RunRead(clens, src, p, total, acc, rs[0]);
      RunsRead(clens, src, p + RunField(clens, rs[0]).size, total, next, rs[1..]);
    }
  }

  lemma JoinSize(a: Field, b: Field)
    requires a.Valid() && b.Valid()
    ensures Join(a, b).size == a.size + b.size
  {
  }

  lemma RunGrows(acc: seq<nat>, r: Run)
    requires r.Again? ==> acc != []
    ensures |acc + RunLengths(acc, r)| > |acc|
  {
  }

  // ----- the header of a dynamic block

  /** The order of the three-bit lengths: 16 to 18, 0, and then from 8 up and from 7 down in
      turn. */
  function OrderAt(i: nat): nat
    requires i < 19
  {
    if i < 3 then 16 + i else if i == 3 then 0 else if i % 2 == 0 then 8 + (i - 4) / 2 else 7 - (i - 5) / 2
  }

  lemma OrderFormula(i: nat)
    requires i < 19
    ensures LENGTH_ORDER[i] == OrderAt(i) < 19
  {
    assert i <= 9 || i >= 10;
  }

  /** Each length comes up once. */
  lemma OrderOnce(i: nat, j: nat)
    requires i < 19 && j < 19 && OrderAt(i) == OrderAt(j)
    ensures i == j
  {
  }

  ghost function CodeField(clens: seq<nat>, n: nat): (f: Field)
    requires n <= 19 == |clens| && forall k :: 0 <= k < 19 ==> clens[k] < 8
    ensures f.Valid() && f.size == 3 * n
  {
    Pow2Values();
    OrderBound(n);
    if n == 0 then Nothing() else Join(CodeField(clens, n - 1), Field(clens[OrderAt(n - 1)], 3))
  }

  lemma OrderBound(n: nat)
    ensures 0 < n <= 19 ==> OrderAt(n - 1) < 19
  {
  }

  /** The three-bit numbers that are not sent are 0. */
  ghost predicate RestZero(clens: seq<nat>, n: nat)
    requires |clens| == 19
  {
    forall i :: n <= i < 19 ==> OrderAt(i) < 19 && clens[OrderAt(i)] == 0
  }

  lemma CodeBitsStep(src: Source, p: nat, n: nat)
    requires 0 < n <= 19
    ensures OrderAt(n - 1) < 19
    ensures CodeBits(src, p, n) == CodeBits(src, p, n - 1)[OrderAt(n - 1) := Window(src.bits, p + 3 * (n - 1), 3)]
  {
    hide Window; hide OrderAt;
    OrderFormula(n - 1);
  }

  lemma {:induction false} CodeBitsRead(clens: seq<nat>, src: Source, p: nat, n: nat, k: nat)
    requires n <= 19 == |clens| && forall k :: 0 <= k < 19 ==> clens[k] < 8
    requires Holds(src, p, CodeField(clens, n)) && k < 19
    ensures OrderAt(k) < 19 && CodeBits(src, p, n)[OrderAt(k)] == if k < n then clens[OrderAt(k)] else 0
  {
    hide Window; hide Holds; hide Join; hide OrderAt;
    OrderBound(k + 1);
    if n > 0 {
      CodeBitsStep(src, p, n);
      Pow2Values();
      hide Pow2; hide CodeBits;
      HoldsJoin(src, p, CodeField(clens, n - 1), Field(clens[OrderAt(n - 1)], 3));
      HeldBits(src, p + 3 * (n - 1), Field(clens[OrderAt(n - 1)], 3));
      CodeBitsRead(clens, src, p, n - 1, k);
      if OrderAt(k) == OrderAt(n - 1) {
        OrderOnce(k, n - 1);
      }
    }
  }

  /** Every number below 19 comes up. */
  lemma OrderMeets(k: nat) returns (i: nat)
    requires k < 19
    ensures i < 19 && OrderAt(i) == k
  {
    i := if k >= 16 then k - 16 else if k == 0 then 3 else if k >= 8 then 4 + 2 * (k - 8) else 5 + 2 * (7 - k);
  }

  lemma CodeLengthsRead(clens: seq<nat>, src: Source, p: nat, n: nat)
    requires n <= 19 == |clens| && (forall k :: 0 <= k < 19 ==> clens[k] < 8) && RestZero(clens, n)
    requires Holds(src, p, CodeField(clens, n))
    ensures CodeBits(src, p, n) == clens
  {
    hide Window; hide Holds; hide Join; hide OrderAt; hide CodeBits; hide CodeField;
    forall k | 0 <= k < 19 ensures CodeBits(src, p, n)[k] == clens[k] {
      var i := OrderMeets(k);
      CodeBitsRead(clens, src, p, n, i);
    }
  }

  /** A dynamic block: its counts, how many code lengths are sent, and everything coded. */
  datatype Dynamic = Dynamic(nlit: nat, ndist: nat, nclen: nat, clens: seq<nat>, runs: seq<Run>, ts: seq<Token>) {
    ghost function Lengths(): seq<nat> {
      AllLengths([], runs)
    }

    ghost predicate Valid() {
      && 257 <= nlit <= 286 && 1 <= ndist <= 30 && 4 <= nclen <= 19 && |clens| == 19
      && (forall k :: 0 <= k < 19 ==> clens[k] < 8) && RestZero(clens, nclen)
      && RunsOk(clens, [], runs, nlit + ndist) && |Lengths()| == nlit + ndist
      && TokensOk(Lengths()[..nlit], Lengths()[nlit..], ts)
      && ValidLengths(clens) && Kraft(clens) && ValidLengths(Lengths()[nlit..]) && Kraft(Lengths()[nlit..])
      && Room(Lengths()[..nlit]) && Room(Lengths()[nlit..])
    }
  }

  ghost function CountsField(b: Dynamic): (f: Field)
    requires b.Valid()
    ensures f.Valid() && f.size == 14
  {
    Pow2Values();
    Join(Field(b.nlit - 257, 5), Join(Field(b.ndist - 1, 5), Field(b.nclen - 4, 4)))
  }

  ghost function DynamicField(b: Dynamic): (f: Field)
    requires b.Valid()
    ensures f.Valid()
  {
    Join(CountsField(b), Join(CodeField(b.clens, b.nclen), Join(RunsField(b.clens, [], b.runs, b.nlit + b.ndist),
        BlockField(b.Lengths()[..b.nlit], b.Lengths()[b.nlit..], b.ts))))
  }

  lemma CountsRead(src: Source, p: nat, b: Dynamic)
    requires b.Valid() && Holds(src, p, CountsField(b))
    ensures Window(src.bits, p, 5) == b.nlit - 257 && Window(src.bits, p + 5, 5) == b.ndist - 1
    ensures Window(src.bits, p + 10, 4) == b.nclen - 4
  {
    Pow2Values();
    hide Window; hide Join; hide Pow2; hide Holds; hide RestZero; hide RunsOk; hide TokensOk; hide Kraft; hide Room;
    var x, y, z := Field(b.nlit - 257, 5), Field(b.ndist - 1, 5), Field(b.nclen - 4, 4);
    HoldsJoin(src, p, x, Join(y, z));
    HoldsJoin(src, p + 5, y, z);
    HeldBits(src, p, x);
    HeldBits(src, p + 5, y);
    HeldBits(src, p + 10, z);
  }

  /** What the parts of a dynamic block are read as, put together. */
  lemma DynamicIs(src: Source, p: nat, b: Dynamic, q: nat, out: seq<nat>)
    requires b.Valid() && p + 14 + 3 * b.nclen <= src.total && p + 14 + 3 * b.nclen <= q
    requires Window(src.bits, p, 5) == b.nlit - 257 && Window(src.bits, p + 5, 5) == b.ndist - 1
    requires Window(src.bits, p + 10, 4) == b.nclen - 4 && CodeBits(src, p + 14, b.nclen) == b.clens
    requires RefLengths(b.clens, src, p + 14 + 3 * b.nclen, b.nlit + b.ndist, []) == Read(q, b.Lengths())
    ensures RefDynamic(src, p, out) == RefBlock(b.Lengths()[..b.nlit], b.Lengths()[b.nlit..], src, q, out)
  {
    hide Window; hide CodeBits; hide RefLengths; hide RefBlock; hide Kraft; hide Room; hide RunsOk; hide RestZero;
    hide AllLengths; hide Pow2;
    var lens := b.Lengths();
    assert HasCode(lens[..b.nlit], 256);
    assert DefinesCode(b.clens) && DefinesCode(lens[..b.nlit]) && DefinesCode(lens[b.nlit..]);
  }

  /** The round trip of a dynamic block: two codes of its own, with their lengths coded in runs by
      a third one, and tokens coded with them. */
  lemma DynamicRead(src: Source, p: nat, b: Dynamic, out: seq<nat>)
    requires b.Valid() && Expandable(out, b.ts) && Holds(src, p, DynamicField(b))
    ensures RefDynamic(src, p, out) == Done(p + DynamicField(b).size, Expand(out, b.ts))
  {
    hide Window; hide Holds; hide CodeBits; hide RefLengths; hide RefBlock; hide Kraft; hide Room; hide RunsOk;
    hide RestZero; hide RefDynamic; hide Expand; hide Expandable; hide TokensOk; hide CountsField; hide CodeField;
    hide RunsField; hide BlockField; hide Pow2; hide AllLengths;
    var lit, dist := b.Lengths()[..b.nlit], b.Lengths()[b.nlit..];
    var x, y := CountsField(b), CodeField(b.clens, b.nclen);
    var z, w := RunsField(b.clens, [], b.runs, b.nlit + b.ndist), BlockField(lit, dist, b.ts);
    HoldsJoin(src, p, x, Join(y, Join(z, w)));
    HoldsJoin(src, p + 14, y, Join(z, w));
    var q := p + 14 + 3 * b.nclen;
    HoldsJoin(src, q, z, w);
    HeldEnd(src, q, z);
    CountsRead(src, p, b);
    CodeLengthsRead(b.clens, src, p + 14, b.nclen);
    RunsRead(b.clens, src, q, b.nlit + b.ndist, [], b.runs);
    DynamicIs(src, p, b, q + z.size, out);
    BlockRead(lit, dist, src, q + z.size, b.ts, out);
  }

  lemma HeldEnd(src: Source, p: nat, f: Field)
    requires Holds(src, p, f)
    ensures p <= src.total
  {
  }

  // ----- whole streams

  datatype Coded = Fixed(ts: seq<Token>) | Own(b: Dynamic)

  ghost predicate CodedOk(c: Coded) {
    match c
    case Fixed(ts) => TokensOk(FixedLiterals(), FixedDistances(), ts)
    case Own(b) => b.Valid()
  }

  ghost function Tokens(c: Coded): seq<Token> {
    if c.Fixed? then c.ts else c.b.ts
  }

  ghost function Kind(c: Coded): nat {
    if c.Fixed? then 1 else 2
  }

  ghost function ContentField(c: Coded): (f: Field)
    requires CodedOk(c)
    ensures f.Valid()
  {
    match c
    case Fixed(ts) => BlockField(FixedLiterals(), FixedDistances(), ts)
    case Own(b) => DynamicField(b)
  }

  ghost function HeaderField(c: Coded, last: bool): (f: Field)
    ensures f.Valid() && f.size == 3
  {
    Pow2Values();
    Join(Field(if last then 1 else 0, 1), Field(Kind(c), 2))
  }

  ghost predicate StreamOk(cs: seq<Coded>) {
    cs != [] && forall i :: 0 <= i < |cs| ==> CodedOk(cs[i])
  }

  ghost function StreamField(cs: seq<Coded>): (f: Field)
    requires StreamOk(cs)
    ensures f.Valid()
    decreases |cs|
  {
    var one := Join(HeaderField(cs[0], |cs| == 1), ContentField(cs[0]));
    if |cs| == 1 then one else Join(one, StreamField(cs[1..]))
  }

  ghost predicate AllExpandable(out: seq<nat>, cs: seq<Coded>)
    decreases |cs|
  {
    cs == [] || (Expandable(out, Tokens(cs[0])) && AllExpandable(Expand(out, Tokens(cs[0])), cs[1..]))
  }

  ghost function ExpandAll(out: seq<nat>, cs: seq<Coded>): seq<nat>
    requires AllExpandable(out, cs)
    decreases |cs|
  {
    if cs == [] then out else ExpandAll(Expand(out, Tokens(cs[0])), cs[1..])
  }

  lemma HeaderRead(src: Source, p: nat, c: Coded, last: bool)
    requires Holds(src, p, HeaderField(c, last))
    ensures p + 3 <= src.total
    ensures Window(src.bits, p, 1) == (if last then 1 else 0) && Window(src.bits, p + 1, 2) == Kind(c)
  {
    Pow2Values();
    hide Window; hide Join; hide Pow2; hide Holds;
    HoldsJoin(src, p, Field(if last then 1 else 0, 1), Field(Kind(c), 2));
    HeldBits(src, p, Field(if last then 1 else 0, 1));
    HeldBits(src, p + 1, Field(Kind(c), 2));
  }

  lemma ContentRead(src: Source, p: nat, c: Coded, out: seq<nat>)
    requires CodedOk(c) && Expandable(out, Tokens(c)) && Holds(src, p, ContentField(c))
    ensures RefOneBlock(src, p, Kind(c), out) == Done(p + ContentField(c).size, Expand(out, Tokens(c)))
  {
    hide Holds; hide RefBlock; hide RefDynamic; hide Expand; hide Expandable; hide TokensOk; hide FixedLiterals;
    hide FixedDistances; hide BlockField; hide DynamicField;
    match c
    case Fixed(ts) => BlockRead(FixedLiterals(), FixedDistances(), src, p, ts, out);
    case Own(b) => DynamicRead(src, p, b, out);
  }

  lemma BlocksStep(src: Source, p: nat, out: seq<nat>, kind: nat, q: nat, next: seq<nat>)
    requires p + 3 <= src.total && Window(src.bits, p + 1, 2) == kind
    requires RefOneBlock(src, p + 3, kind, out) == Done(q, next)
    ensures Window(src.bits, p, 1) == 1 ==> RefBlocks(src, p, out) == Done(q, next)
    ensures Window(src.bits, p, 1) != 1 ==> RefBlocks(src, p, out) == RefBlocks(src, q, next)
  {
    hide Window; hide RefOneBlock;
  }

  /** The round trip of a stream: blocks with the fixed codes or with codes of their own, one
      after the other. */
  lemma {:induction false} StreamRead(src: Source, p: nat, cs: seq<Coded>, out: seq<nat>)
    requires StreamOk(cs) && AllExpandable(out, cs) && Holds(src, p, StreamField(cs))
    ensures RefBlocks(src, p, out) == Done(p + StreamField(cs).size, ExpandAll(out, cs))
    decreases |cs|
  {
    hide Holds; hide RefBlocks; hide RefOneBlock; hide Expand; hide Expandable; hide CodedOk; hide Window; hide Join;
    hide ContentField; hide HeaderField;
    var c, last := cs[0], |cs| == 1;
    var x, y := HeaderField(c, last), ContentField(c);
    var next := Expand(out, Tokens(c));
    JoinSize(x, y);
    if !last {
      HoldsJoin(src, p, Join(x, y), StreamField(cs[1..]));
      JoinSize(Join(x, y), StreamField(cs[1..]));
    }
    HoldsJoin(src, p, x, y);
    HeaderRead(src, p, c, last);
    ContentRead(src, p + 3, c, out);
    BlocksStep(src, p, out, Kind(c), p + 3 + y.size, next);
    if !last {
      StreamRead(src, p + 3 + y.size, cs[1..], next);
    } else {
      assert cs[1..] == [];
      assert ExpandAll(next, []) == next;
    }
  }

  /** The inflater on such a stream, with room for its output and more than 38 bits behind it. */
  method InflateCoded(rd: Reader, w: Work, fixedLit: seq<nat>, fixedDist: seq<nat>, out: array<nat>, pout: nat,
      ghost cs: seq<Coded>)
    returns (r: Status, pout': nat)
    requires rd.Valid() && w.Valid() && pout <= out.Length < WORD
    requires out != w.table && out != w.dtable && out != w.next && out != w.plen
    requires Usable(fixedLit, FixedLiterals()) && Usable(fixedDist, FixedDistances())
    requires StreamOk(cs) && AllExpandable(out[..pout], cs) && |ExpandAll(out[..pout], cs)| <= out.Length
    requires Holds(SourceOf(rd.input), rd.Pos(), StreamField(cs))
    requires rd.Pos() + StreamField(cs).size + SPARE_BITS < 8 * |rd.input|
    modifies rd, out, w.table, w.dtable, w.next, w.plen
    ensures rd.Valid() && pout' <= out.Length && r == EndBlock
    ensures rd.Pos() == old(rd.Pos()) + StreamField(cs).size && out[..pout'] == ExpandAll(old(out[..pout]), cs)
  {
    hide *;
    StreamRead(SourceOf(rd.input), rd.Pos(), cs, out[..pout]);
    r, pout' := InflateBlocks(rd, w, fixedLit, fixedDist, out, pout);
  }

  // ----- two streams in bytes

  lemma FixedSymbol(s: nat)
    requires s < 286
    ensures HasCode(FixedLiterals(), s)
    ensures SymbolField(FixedLiterals(), s) == Field(Rev(TableLength(s), TableCode(s)), TableLength(s))
  {
    hide FixedLiterals; hide Code; hide Kraft; hide Rev; hide TableCode;
    FixedLengths();
    LiteralRoom();
    FixedLiteralCode(s);
  }

  /** The bytes 03 00 are one block with nothing in it. */
  lemma EmptyStream(input: seq<nat>)
    requires input == [0x03, 0x00]
    ensures RefBlocks(SourceOf(input), 0, []) == Done(10, [])
  {
    var cs := [Fixed([])];
    TwoBytes(input);
    FixedSymbol(256);
    assert Rev(7, 0) == 0;
    hide FixedLiterals; hide FixedDistances; hide Rev; hide RefBlocks; hide HasCode; hide SymbolField;
    Pow2Values();
    assert HeaderField(cs[0], true) == Field(3, 3);
    assert StreamField(cs) == Join(Field(3, 3), Field(0, 7));
    assert Join(Field(3, 3), Field(0, 7)) == Field(3, 10);
    StreamRead(SourceOf(input), 0, cs, []);
    assert cs[1..] == [];
  }

  lemma TwoBytes(input: seq<nat>)
    requires input == [0x03, 0x00]
    ensures SourceOf(input).total == 16 && Window(SourceOf(input).bits, 0, 10) == 3
  {
    assert input[1..] == [0x00] && input[1..][1..] == [];
    assert Stream(input[1..][1..]) == 0 && Stream(input[1..]) == 0;
    assert Stream(input) == 3;
    Pow2Values();
    assert Pow2(10) == 1024;
  }

  /** The bytes 4B 04 00 are one block with the letter a. */
  lemma LetterStream(input: seq<nat>)
    requires input == [0x4b, 0x04, 0x00]
    ensures RefBlocks(SourceOf(input), 0, []) == Done(18, ['a' as nat])
  {
    var cs := [Fixed([Byte('a' as nat)])];
    ThreeBytes(input);
    FixedSymbol(256);
    FixedSymbol('a' as nat);
    LetterCode();
    hide FixedLiterals; hide FixedDistances; hide Rev; hide RefBlocks; hide HasCode; hide SymbolField;
    Pow2Values();
    var ts := cs[0].ts;
    assert ts[1..] == [] && cs[1..] == [];
    assert HeaderField(cs[0], true) == Field(3, 3);
    var rest := Join(Field(0x89, 8), Field(0, 7));
    assert BlockField(FixedLiterals(), FixedDistances(), ts) == rest == Field(0x89, 15);
    assert StreamField(cs) == Join(Field(3, 3), rest) == Field(0x44b, 18);
    assert Expand([], ts) == ['a' as nat];
    StreamRead(SourceOf(input), 0, cs, []);
  }

  lemma LetterCode()
    ensures TableCode('a' as nat) == 0x91 && TableLength('a' as nat) == 8 && Rev(8, 0x91) == 0x89
    ensures TableCode(256) == 0 && TableLength(256) == 7 && Rev(7, 0) == 0
  {
    Pow2Values();
    assert Rev(2, 2) == 1 && Rev(3, 4) == 1;
    assert Rev(4, 9) == 9;
    assert Rev(5, 18) == 9;
    assert Rev(6, 36) == 9;
    assert Rev(7, 72) == 9;
    assert Rev(3, 0) == 0;
    assert Rev(5, 0) == 0;
  }

  lemma ThreeBytes(input: seq<nat>)
    requires input == [0x4b, 0x04, 0x00]
    ensures SourceOf(input).total == 24 && Window(SourceOf(input).bits, 0, 18) == 0x44b
  {
    assert input[1..] == [0x04, 0x00] && input[1..][1..] == [0x00] && input[1..][1..][1..] == [];
    assert Stream(input[1..][1..][1..]) == 0 && Stream(input[1..][1..]) == 0 && Stream(input[1..]) == 4;
    assert Stream(input) == 0x44b;
    Pow2Values();
    assert Pow2(18) == 0x40000 by { Pow2Add(9, 9); assert Pow2(9) == 512; }
  }
}
