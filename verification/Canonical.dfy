/**
 The canonical Huffman code of a list of code lengths, as section 3.2.2 of RFC 1951
 defines it, and the facts that make it a prefix code.  Lengths are at most 15; a
 length of 0 means that the symbol has no code.
 */
module Canonical {
  import opened Bits

  const MAX_LENGTH: nat := 15

  ghost predicate ValidLengths(lens: seq<nat>) {
    forall s :: 0 <= s < |lens| ==> lens[s] <= MAX_LENGTH
  }

  /** n symbols of length x. */
  function Many(n: nat, x: nat): (r: seq<nat>)
    ensures |r| == n && forall i :: 0 <= i < n ==> r[i] == x
  {
    seq(n, _ => x)
  }

  /** How many of the first n symbols have length l. */
  ghost function CountUpTo(lens: seq<nat>, n: nat, l: nat): (c: nat)
    requires n <= |lens|
    ensures c <= n
  {
    if n == 0 then 0 else CountUpTo(lens, n - 1, l) + if lens[n - 1] == l then 1 else 0
  }

  ghost function Count(lens: seq<nat>, l: nat): nat {
    CountUpTo(lens, |lens|, l)
  }

  /** The smallest code of length j: step 2 of section 3.2.2. */
  ghost function NextCode(lens: seq<nat>, j: nat): nat
    requires j >= 1
  {
    if j == 1 then 0 else 2 * (NextCode(lens, j - 1) + Count(lens, j - 1))
  }

  /** Step 3: symbols of one length get consecutive codes in symbol order. */
  ghost function Code(lens: seq<nat>, s: nat): nat
    requires s < |lens| && lens[s] >= 1
  {
    NextCode(lens, lens[s]) + CountUpTo(lens, s, lens[s])
  }

  /** The Kraft sum over lengths 1 to j, in units of 2^-15. */
  ghost function End(lens: seq<nat>, j: nat): nat
    requires j <= MAX_LENGTH
  {
    if j == 0 then 0 else End(lens, j - 1) + Count(lens, j) * Pow2(MAX_LENGTH - j)
  }

  ghost predicate Kraft(lens: seq<nat>) {
    End(lens, MAX_LENGTH) <= Pow2(MAX_LENGTH)
  }

  /** The next bits of the stream, least significant first in v, spell the code of s most
      significant bit first. */
  ghost predicate Matches(lens: seq<nat>, s: nat, v: nat)
    requires s < |lens| && lens[s] >= 1
  {
    v % Pow2(lens[s]) == Rev(lens[s], Code(lens, s))
  }

  lemma {:induction false} CountMono(lens: seq<nat>, m: nat, n: nat, l: nat)
    requires m <= n <= |lens|
    ensures CountUpTo(lens, m, l) <= CountUpTo(lens, n, l)
    ensures m < n && lens[m] == l ==> CountUpTo(lens, m, l) < CountUpTo(lens, n, l)
  {
    if m < n {
      CountMono(lens, m, n - 1, l);
    }
  }

  /** Two symbols of one length with the same rank are the same symbol. */
  lemma RankInjective(lens: seq<nat>, s: nat, t: nat)
    requires s < |lens| && t < |lens| && lens[s] == lens[t]
    requires CountUpTo(lens, s, lens[s]) == CountUpTo(lens, t, lens[t])
    ensures s == t
  {
    var l := lens[s];
    if s < t {
      CountMono(lens, s, t, l);
    } else if t < s {
      CountMono(lens, t, s, l);
    }
  }

  /** In units of 2^-15, the first code of length j starts where the shorter ones end. */
  lemma {:induction false} NextCodeIsEnd(lens: seq<nat>, j: nat)
    requires 1 <= j <= MAX_LENGTH
    ensures NextCode(lens, j) * Pow2(MAX_LENGTH - j) == End(lens, j - 1)
  {
    if j > 1 {
      NextCodeIsEnd(lens, j - 1);
      var p := Pow2(MAX_LENGTH - j);
      var n, c, e := NextCode(lens, j - 1), Count(lens, j - 1), End(lens, j - 2);
      assert Pow2(MAX_LENGTH - (j - 1)) == 2 * p;
      assert NextCode(lens, j) == 2 * (n + c) && End(lens, j - 1) == e + c * (2 * p);
      Doubling(n, c, p, e);
    }
  }

  lemma Doubling(n: nat, c: nat, p: nat, e: nat)
    requires n * (2 * p) == e
    ensures 2 * (n + c) * p == e + c * (2 * p)
  {
    MulAssoc(n + c, 2, p);
    MulDist(n, c, 2 * p);
  }

  lemma {:induction false} EndMono(lens: seq<nat>, i: nat, j: nat)
    requires i <= j <= MAX_LENGTH
    ensures End(lens, i) <= End(lens, j)
  {
    if i < j {
      EndMono(lens, i, j - 1);
      MulMono(0, Count(lens, j), Pow2(MAX_LENGTH - j));
    }
  }

  /** The interval of 15-bit words that start with code c of length j. */
  ghost function Start(lens: seq<nat>, s: nat): nat
    requires s < |lens| && 1 <= lens[s] <= MAX_LENGTH
  {
    Code(lens, s) * Pow2(MAX_LENGTH - lens[s])
  }

  lemma StartIsEndPlusRank(lens: seq<nat>, s: nat)
    requires s < |lens| && 1 <= lens[s] <= MAX_LENGTH
    ensures Start(lens, s)
         == End(lens, lens[s] - 1) + CountUpTo(lens, s, lens[s]) * Pow2(MAX_LENGTH - lens[s])
    ensures Start(lens, s) + Pow2(MAX_LENGTH - lens[s]) <= End(lens, lens[s])
  {
    var j := lens[s];
    var p := Pow2(MAX_LENGTH - j);
    NextCodeIsEnd(lens, j);
    MulDist(NextCode(lens, j), CountUpTo(lens, s, j), p);
    CountMono(lens, s, |lens|, j);
    MulMono(CountUpTo(lens, s, j) + 1, Count(lens, j), p);
    MulDist(CountUpTo(lens, s, j), 1, p);
  }

  /** Under the Kraft inequality a code fits in its length. */
  lemma CodeFits(lens: seq<nat>, s: nat)
    requires s < |lens| && 1 <= lens[s] <= MAX_LENGTH && Kraft(lens)
    ensures Code(lens, s) < Pow2(lens[s])
    ensures Start(lens, s) + Pow2(MAX_LENGTH - lens[s]) <= Pow2(MAX_LENGTH)
  {
    var j := lens[s];
    var p := Pow2(MAX_LENGTH - j);
    StartIsEndPlusRank(lens, s);
    EndMono(lens, j, MAX_LENGTH);
    Pow2Add(j, MAX_LENGTH - j);
    if Code(lens, s) >= Pow2(j) {
      MulMono(Pow2(j), Code(lens, s), p);
    }
  }

  /** The codes of two symbols start disjoint intervals, in order of (length, symbol). */
  lemma IntervalsOrdered(lens: seq<nat>, s: nat, t: nat)
    requires s < |lens| && t < |lens|
    requires 1 <= lens[s] <= MAX_LENGTH && 1 <= lens[t] <= MAX_LENGTH
    requires lens[s] < lens[t] || (lens[s] == lens[t] && s < t)
    ensures Start(lens, s) + Pow2(MAX_LENGTH - lens[s]) <= Start(lens, t)
  {
    var p := Pow2(MAX_LENGTH - lens[s]);
    StartIsEndPlusRank(lens, s);
    StartIsEndPlusRank(lens, t);
    if lens[s] < lens[t] {
      EndMono(lens, lens[s], lens[t] - 1);
      MulMono(0, CountUpTo(lens, t, lens[t]), Pow2(MAX_LENGTH - lens[t]));
    } else {
      CountMono(lens, s, t, lens[s]);
      MulMono(CountUpTo(lens, s, lens[s]) + 1, CountUpTo(lens, t, lens[t]), p);
      MulDist(CountUpTo(lens, s, lens[s]), 1, p);
    }
  }

  lemma RevConcatHigh(a: nat, h: nat, b: nat, l: nat)
    requires l < Pow2(b)
    ensures Rev(a + b, h * Pow2(b) + l) / Pow2(a) == Rev(b, l)
    ensures Rev(a + b, h * Pow2(b) + l) % Pow2(a) == Rev(a, h)
  {
    hide Rev; hide Pow2;
    RevConcat(a, h, b, l);
    DivModUnique(Rev(a + b, h * Pow2(b) + l), Pow2(a), Rev(b, l), Rev(a, h));
  }

  /** The high bits of a reversed word are its low bits reversed. */
  lemma RevHigh(n: nat, j: nat, v: nat)
    requires j <= n
    ensures Rev(n, v) / Pow2(n - j) == Rev(j, v % Pow2(j))
  {
    hide Rev; hide Pow2;
    RevConcatHigh(n - j, v / Pow2(j), j, v % Pow2(j));
    assert v / Pow2(j) * Pow2(j) + v % Pow2(j) == v;
  }

  /** Matching a reversed code is membership of the reversed word in the code's interval. */
  lemma MatchReversed(n: nat, j: nat, v: nat, c: nat)
    requires j <= n && c < Pow2(j)
    ensures v % Pow2(j) == Rev(j, c) <==> Rev(n, v) / Pow2(n - j) == c
  {
    var lo := v % Pow2(j);
    RevHigh(n, j, v);
    RevRev(j, c);
    RevRev(j, lo);
  }

  ghost predicate InInterval(q: nat, start: nat, width: nat) {
    start <= q < start + width
  }

  lemma QuotientIsInterval(q: nat, p: nat, c: nat)
    requires p > 0
    ensures q / p == c <==> InInterval(q, c * p, p)
  {
    if InInterval(q, c * p, p) {
      DivModUnique(q, p, c, q - c * p);
    }
    if q / p == c {
      assert q == c * p + q % p;
    }
  }

  lemma MatchesIsInterval(lens: seq<nat>, s: nat, v: nat)
    requires s < |lens| && 1 <= lens[s] <= MAX_LENGTH && Kraft(lens)
    ensures Matches(lens, s, v)
       <==> InInterval(Rev(MAX_LENGTH, v), Start(lens, s), Pow2(MAX_LENGTH - lens[s]))
  {
    CodeFits(lens, s);
    MatchReversed(MAX_LENGTH, lens[s], v, Code(lens, s));
    QuotientIsInterval(Rev(MAX_LENGTH, v), Pow2(MAX_LENGTH - lens[s]), Code(lens, s));
  }

  /** Canonical codes form a prefix code: no bit string starts with two of them. */
  lemma PrefixFree(lens: seq<nat>, s: nat, t: nat, v: nat)
    requires s < |lens| && t < |lens| && Kraft(lens)
    requires 1 <= lens[s] <= MAX_LENGTH && 1 <= lens[t] <= MAX_LENGTH
    requires Matches(lens, s, v) && Matches(lens, t, v)
    ensures s == t
  {
    MatchesIsInterval(lens, s, v);
    MatchesIsInterval(lens, t, v);
    if lens[s] < lens[t] || (lens[s] == lens[t] && s < t) {
      IntervalsOrdered(lens, s, t);
    } else if s != t {
      IntervalsOrdered(lens, t, s);
    }
  }
}
