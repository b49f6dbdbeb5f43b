/**
 Streams of LZMA packets: what they write, how they are coded, and that a coded stream
 stands for one sequence of packets only.
 */
module LzmaStream {
  import opened Bits
  import opened LzmaRange
  import opened LzmaPackets
  import opened MatchCopy

  /** The decoder goes from d to d' while it reads these decisions. */
  ghost predicate Path(input: seq<nat>, d: Decoder, es: seq<Event>, d': Decoder) {
    Words(d) && AllKnown(es, d.probs) && Reads(input, d, es) && d' == After(input, d, es)
  }

  lemma PathNone(input: seq<nat>, d: Decoder)
    requires Words(d)
    ensures Path(input, d, [], d)
  {
  }

  lemma PathOne(input: seq<nat>, d: Decoder, c: Choice)
    requires Words(d) && Known(c, d.probs)
    ensures Path(input, d, [Event(c, ReadBit(input, d, c).0)], ReadBit(input, d, c).1)
  {
    var es := [Event(c, ReadBit(input, d, c).0)];
    var d' := ReadBit(input, d, c).1;
    assert es[1..] == [];
    assert Reads(input, d', []) && After(input, d', []) == d';
  }

  lemma {:induction false} PathJoin(input: seq<nat>, d: Decoder, a: seq<Event>, mid: Decoder, b: seq<Event>,
      d': Decoder)
    requires Path(input, d, a, mid) && Path(input, mid, b, d')
    ensures Path(input, d, a + b, d')
    decreases |a|
  {
    if a == [] {
      assert a + b == b;
    } else {
      assert a[0] in a;
      var next := ReadBit(input, d, a[0].choice).1;
      assert AllKnown(a[1..], next.probs);
      PathJoin(input, next, a[1..], mid, b, d');
      assert (a + b)[1..] == a[1..] + b;
      KnownJoin(a, b, d.probs);
    }
  }

  lemma KnownJoin(a: seq<Event>, b: seq<Event>, probs: seq<nat>)
    ensures AllKnown(a + b, probs) <==> AllKnown(a, probs) && AllKnown(b, probs)
  {
    if AllKnown(a + b, probs) {
      forall i | 0 <= i < |a| ensures Known(a[i].choice, probs) { assert (a + b)[i] == a[i]; }
      forall i | 0 <= i < |b| ensures Known(b[i].choice, probs) { assert (a + b)[|a| + i] == b[i]; }
    }
  }

  lemma {:induction false} ReadsSplit(input: seq<nat>, d: Decoder, a: seq<Event>, b: seq<Event>)
    requires Words(d) && AllKnown(a + b, d.probs) && Reads(input, d, a + b)
    ensures AllKnown(a, d.probs) && AllKnown(b, After(input, d, a).probs)
    ensures Path(input, d, a, After(input, d, a)) && Reads(input, After(input, d, a), b)
    decreases |a|
  {
    KnownJoin(a, b, d.probs);
    if a == [] {
      assert a + b == b;
    } else {
      assert a[0] in a && (a + b)[0] == a[0] && (a + b)[1..] == a[1..] + b;
      var next := ReadBit(input, d, a[0].choice).1;
      ReadsSplit(input, next, a[1..], b);
    }
  }

  lemma {:induction false} PartNotBoth(input: seq<nat>, d: Decoder, a: seq<Event>, b: seq<Event>, k: nat)
    requires Words(d) && AllKnown(a, d.probs) && AllKnown(b, d.probs) && PartAt(a, b, k)
    ensures !(Reads(input, d, a) && Reads(input, d, b))
    decreases k
  {
    assert a[0] in a && b[0] in b;
    if k > 0 {
      assert a[0] == a[..k][0] == b[..k][0] == b[0];
      assert a[1..][..k - 1] == a[..k][1..] && b[1..][..k - 1] == b[..k][1..];
      var next := ReadBit(input, d, a[0].choice).1;
      assert AllKnown(a[1..], next.probs) && AllKnown(b[1..], next.probs);
      PartNotBoth(input, next, a[1..], b[1..], k - 1);
    }
  }

  lemma {:induction false} InRangeReads(input: seq<nat>, d: Decoder, es: seq<Event>)
    requires Words(d) && AllKnown(es, d.probs) && ReadsInRange(input, d, es)
    ensures Reads(input, d, es)
    decreases |es|
  {
    if es != [] {
      assert es[0] in es;
      InRangeReads(input, ReadBit(input, d, es[0].choice).1, es[1..]);
    }
  }

  // ----- what packets write

  datatype Properties = Properties(lc: nat, lp: nat, pb: nat) {
    predicate Valid() {
      lc + lp <= 4 && pb <= 4
    }
  }

  datatype Written = Written(h: History, out: seq<nat>)

  /** The bytes after the last dictionary reset, at dict, can be copied. */
  ghost predicate Sound(dict: nat, s: Written) {
    s.h.Valid() && dict <= |s.out| && AllBytes(s.out)
  }

  ghost function PlaceOf(props: Properties, dict: nat, s: Written): (w: Place)
    requires props.Valid() && Sound(dict, s)
    ensures w.Valid()
  {
    PlaceBounds(props, dict, s);
    Place((|s.out| - dict) % Pow2(props.pb),
          (|s.out| - dict) % Pow2(props.lp) * Pow2(props.lc) + Previous(s.out) / Pow2(8 - props.lc),
          if s.h.d0 < |s.out| then s.out[|s.out| - 1 - s.h.d0] else 0)
  }

  ghost function Previous(out: seq<nat>): nat {
    if |out| > 0 then out[|out| - 1] else 0
  }

  lemma PlaceBounds(props: Properties, dict: nat, s: Written)
    requires props.Valid() && Sound(dict, s)
    ensures (|s.out| - dict) % Pow2(props.pb) < 16
    ensures 0 <= (|s.out| - dict) % Pow2(props.lp) * Pow2(props.lc) + Previous(s.out) / Pow2(8 - props.lc) < 16
  {
    var prev := Previous(s.out);
    var high := (|s.out| - dict) % Pow2(props.lp);
    Pow2Values();
    Pow2Mono(props.pb, 4);
    Pow2Add(props.lc, 8 - props.lc);
    Pow2Add(props.lp, props.lc);
    Pow2Mono(props.lp + props.lc, 4);
    hide Pow2;
    DivBound(prev, Pow2(8 - props.lc), Pow2(props.lc));
    QuotientNonNegative(prev, Pow2(8 - props.lc));
    MulMono(high + 1, Pow2(props.lp), Pow2(props.lc));
    MulDist(high, 1, Pow2(props.lc));
    MulMono(0, high, Pow2(props.lc));
  }

  ghost function Size(p: Packet): nat {
    match p
    case Literal(_) => 1
    case ShortRep => 1
    case Match(_, len) => len
    case Rep(_, len) => len
  }

  /** A match may only reach back to the last dictionary reset. */
  ghost predicate Reaches(dict: nat, s: Written, p: Packet)
    requires Sound(dict, s)
  {
    Encodable(p) && (p.Literal? || NextHistory(s.h, p).d0 < |s.out| - dict)
  }

  ghost function Write(dict: nat, s: Written, p: Packet): (r: Written)
    requires Sound(dict, s) && Reaches(dict, s, p)
    ensures Sound(dict, r) && |r.out| == |s.out| + Size(p)
  {
    var h := NextHistory(s.h, p);
    var out := if p.Literal? then s.out + [p.byte] else RefCopy(s.out, h.d0 + 1, Size(p));
    if p.Literal? then Written(h, out) else CopyBytes(s.out, h.d0 + 1, Size(p)); Written(h, out)
  }

  lemma {:induction false} CopyBytes(out: seq<nat>, dist: nat, len: nat)
    requires 1 <= dist <= |out| && AllBytes(out)
    ensures AllBytes(RefCopy(out, dist, len))
    decreases len
  {
    if len > 0 {
      CopyBytes(out + [out[|out| - dist]], dist, len - 1);
    }
  }

  /** The distance, less one, that a packet copies from. */
  ghost function DistanceOf(h: History, p: Packet): nat
    requires Encodable(p) && !p.Literal?
  {
    match p
    case Match(dist, _) => dist
    case ShortRep => Distances(h)[0]
    case Rep(which, _) => Distances(h)[which]
  }

  /** A literal is appended; any other packet appends bytes that each equal the one so far back. */
  lemma WriteMeans(dict: nat, s: Written, p: Packet)
    requires Sound(dict, s) && Reaches(dict, s, p)
    ensures var n, out := |s.out|, Write(dict, s, p).out;
            && |out| == n + Size(p) && out[..n] == s.out
            && match p
               case Literal(b) => out[n] == b
               case _ =>
                 && DistanceOf(s.h, p) < n - dict
                 && forall i :: n <= i < n + Size(p) ==> out[i] == out[i - 1 - DistanceOf(s.h, p)]
  {
    if !p.Literal? {
      assert NextHistory(s.h, p).d0 == DistanceOf(s.h, p);
      hide NextHistory;
      CopyMeans(s.out, DistanceOf(s.h, p) + 1, Size(p));
    }
  }

  lemma Divided(x: nat, w: nat) returns (q: nat, r: nat)
    requires w > 0
    ensures q == x / w && r == x % w && x == q * w + r && r < w
  {
    QuotientNonNegative(x, w);
    q, r := x / w, x % w;
  }

  /** What a place stands for: how far the output since dict is behind a multiple of 2^pb bytes;
      how far behind one of 2^lp, followed by the lc highest bits of the last byte; and the byte
      that a short repetition would write. */
  lemma PlaceMeans(props: Properties, dict: nat, s: Written) returns (k: nat, k': nat, a: nat, high: nat, low: nat)
    requires props.Valid() && Sound(dict, s) && |s.out| > dict
    ensures var w, n, last := PlaceOf(props, dict, s), |s.out| - dict, s.out[|s.out| - 1];
            && n == k * Pow2(props.pb) + w.pos && w.pos < Pow2(props.pb)
            && n == k' * Pow2(props.lp) + a && a < Pow2(props.lp)
            && last == high * Pow2(8 - props.lc) + low && low < Pow2(8 - props.lc) && high < Pow2(props.lc)
            && w.coder == a * Pow2(props.lc) + high
    ensures Reaches(dict, s, ShortRep) ==>
              PlaceOf(props, dict, s).matchByte == Write(dict, s, ShortRep).out[|s.out|]
  {
    var last, pos;
    PlaceParts(props, dict, s);
    hide Pow2; hide Reaches; hide Write; hide PlaceOf;
    k, pos := Divided(|s.out| - dict, Pow2(props.pb));
    k', a := Divided(|s.out| - dict, Pow2(props.lp));
    last := s.out[|s.out| - 1];
    high, low := Divided(last, Pow2(8 - props.lc));
    ByteIsWord(s, |s.out| - 1);
    Pow2Add(props.lc, 8 - props.lc);
    Pow2Values();
    DivBound(last, Pow2(8 - props.lc), Pow2(props.lc));
    if Reaches(dict, s, ShortRep) {
      ShortRepByte(dict, s);
    }
  }

  lemma ByteIsWord(s: Written, i: nat)
    requires AllBytes(s.out) && i < |s.out|
    ensures s.out[i] < 256
  {
  }

  lemma PlaceParts(props: Properties, dict: nat, s: Written)
    requires props.Valid() && Sound(dict, s) && |s.out| > 0
    ensures var w, n := PlaceOf(props, dict, s), |s.out| - dict;
            && w.pos == n % Pow2(props.pb)
            && w.coder == n % Pow2(props.lp) * Pow2(props.lc) + s.out[|s.out| - 1] / Pow2(8 - props.lc)
            && (s.h.d0 < |s.out| ==> w.matchByte == s.out[|s.out| - 1 - s.h.d0])
  {
    hide Pow2;
  }

  lemma ShortRepByte(dict: nat, s: Written)
    requires Sound(dict, s) && Reaches(dict, s, ShortRep)
    ensures s.h.d0 < |s.out| && Write(dict, s, ShortRep).out[|s.out|] == s.out[|s.out| - 1 - s.h.d0]
  {
    WriteMeans(dict, s, ShortRep);
    var out := Write(dict, s, ShortRep).out;
    assert out[|s.out| - 1 - s.h.d0] == out[..|s.out|][|s.out| - 1 - s.h.d0];
  }

  ghost predicate Playable(dict: nat, s: Written, ps: seq<Packet>)
    requires Sound(dict, s)
    decreases |ps|
  {
    ps == [] || (Reaches(dict, s, ps[0]) && Playable(dict, Write(dict, s, ps[0]), ps[1..]))
  }

  ghost function Play(dict: nat, s: Written, ps: seq<Packet>): (r: Written)
    requires Sound(dict, s) && Playable(dict, s, ps)
    ensures Sound(dict, r) && |r.out| >= |s.out| + |ps|
    decreases |ps|
  {
    if ps == [] then s else Play(dict, Write(dict, s, ps[0]), ps[1..])
  }

  /** The state while packets are played is that of all packets since the reset. */
  lemma {:induction false} PlayState(dict: nat, s: Written, before: seq<Packet>, ps: seq<Packet>)
    requires Sound(dict, s) && Playable(dict, s, ps) && s.h.state == StateMeaning(before)
    ensures Play(dict, s, ps).h.state == StateMeaning(before + ps)
    decreases |ps|
  {
    hide StateMeaning; hide Write; hide Reaches; hide NextState;
    if ps == [] {
      assert before + ps == before;
    } else {
      var next := before + [ps[0]];
      assert next[..|before|] == before && before + ps == next + ps[1..];
      StateMeans(before);
      StateMeans(next);
      WriteState(dict, s, ps[0]);
      PlayState(dict, Write(dict, s, ps[0]), next, ps[1..]);
    }
  }

  lemma WriteState(dict: nat, s: Written, p: Packet)
    requires Sound(dict, s) && Reaches(dict, s, p)
    ensures Write(dict, s, p).h.state == NextState(s.h.state, p)
  {
    hide NextState;
  }

  ghost function StreamEvents(props: Properties, dict: nat, s: Written, ps: seq<Packet>): (es: seq<Event>)
    requires props.Valid() && Sound(dict, s) && Playable(dict, s, ps)
    decreases |ps|
  {
    if ps == [] then []
    else PacketEvents(s.h, PlaceOf(props, dict, s), ps[0]) + StreamEvents(props, dict, Write(dict, s, ps[0]), ps[1..])
  }

  lemma {:induction false} StreamListed(props: Properties, dict: nat, s: Written, ps: seq<Packet>)
    requires props.Valid() && Sound(dict, s) && Playable(dict, s, ps)
    ensures Listed(StreamEvents(props, dict, s, ps))
    decreases |ps|
  {
    if ps != [] {
      hide PacketEvents; hide PlaceOf; hide Write;
      PacketListed(s.h, PlaceOf(props, dict, s), ps[0]);
      StreamListed(props, dict, Write(dict, s, ps[0]), ps[1..]);
      ListedJoin(PacketEvents(s.h, PlaceOf(props, dict, s), ps[0]),
          StreamEvents(props, dict, Write(dict, s, ps[0]), ps[1..]));
    }
  }

  lemma ListedJoin(a: seq<Event>, b: seq<Event>)
    requires Listed(a) && Listed(b)
    ensures Listed(a + b)
  {
  }

  lemma ListedKnown(es: seq<Event>, probs: seq<nat>)
    requires Listed(es) && |probs| == TOTAL
    ensures AllKnown(es, probs)
  {
  }

  /** What is read as packets is read as packets in one way. */
  lemma {:induction false} StreamUnique(input: seq<nat>, d: Decoder, props: Properties, dict: nat, s: Written,
      ps: seq<Packet>, qs: seq<Packet>)
    requires props.Valid() && Sound(dict, s) && Words(d) && |d.probs| == TOTAL
    requires Playable(dict, s, ps) && Playable(dict, s, qs) && |ps| <= |qs|
    requires AllKnown(StreamEvents(props, dict, s, ps), d.probs) && Reads(input, d, StreamEvents(props, dict, s, ps))
    requires AllKnown(StreamEvents(props, dict, s, qs), d.probs) && Reads(input, d, StreamEvents(props, dict, s, qs))
    ensures ps == qs[..|ps|]
    decreases |ps|
  {
    hide PacketEvents; hide PlaceOf; hide Reads; hide After; hide Words; hide AllKnown; hide Write;
    if ps != [] {
      var w := PlaceOf(props, dict, s);
      var a, b := PacketEvents(s.h, w, ps[0]), PacketEvents(s.h, w, qs[0]);
      var x := StreamEvents(props, dict, Write(dict, s, ps[0]), ps[1..]);
      var y := StreamEvents(props, dict, Write(dict, s, qs[0]), qs[1..]);
      ReadsSplit(input, d, a, x);
      if ps[0] != qs[0] {
        PacketsPart(s.h, w, ps[0], qs[0]);
        PartLeft(a, x, b, y);
        var k: nat :| PartAt(a + x, b + y, k);
        PartNotBoth(input, d, a + x, b + y, k);
      } else {
        ReadsSplit(input, d, a, y);
        StreamUnique(input, After(input, d, a), props, dict, Write(dict, s, ps[0]), ps[1..], qs[1..]);
        assert ps == [ps[0]] + ps[1..] && qs[..|ps|] == [qs[0]] + qs[1..][..|ps| - 1];
      }
    }
  }

  lemma {:induction false} PlayLonger(dict: nat, s: Written, ps: seq<Packet>, qs: seq<Packet>)
    requires Sound(dict, s) && Playable(dict, s, ps) && Playable(dict, s, qs) && |ps| < |qs| && ps == qs[..|ps|]
    ensures |Play(dict, s, ps).out| < |Play(dict, s, qs).out|
    decreases |ps|
  {
    hide Write; hide Reaches;
    if ps != [] {
      assert ps[0] == qs[0] && ps[1..] == qs[1..][..|ps| - 1];
      PlayLonger(dict, Write(dict, s, ps[0]), ps[1..], qs[1..]);
    }
  }

  /** The round trip: encode a stream of packets, put any bytes around it, and decode; a
      decoder that has written as many bytes has read the same packets. */
  lemma StreamRoundTrip(before: seq<nat>, after: seq<nat>, probs: seq<nat>, props: Properties, dict: nat, s: Written,
      ps: seq<Packet>, qs: seq<Packet>)
    requires Probabilities(probs) && |probs| == TOTAL && AllBytes(before) && AllBytes(after)
    requires props.Valid() && Sound(dict, s) && Playable(dict, s, ps) && Playable(dict, s, qs)
    requires AllKnown(StreamEvents(props, dict, s, ps), probs) && AllKnown(StreamEvents(props, dict, s, qs), probs)
    requires var b := RangeEncode(probs, StreamEvents(props, dict, s, ps));
             |b| >= 4 &&
             var input := before + b + after;
             Words(Start(input, |before|, probs))
                 && Reads(input, Start(input, |before|, probs), StreamEvents(props, dict, s, qs))
    requires |Play(dict, s, qs).out| == |Play(dict, s, ps).out|
    ensures qs == ps
  {
    var es := StreamEvents(props, dict, s, ps);
    RangeRoundTrip(before, probs, es, after);
    var input := before + RangeEncode(probs, es) + after;
    var d := Start(input, |before|, probs);
    hide RangeEncode; hide Start; hide Reads; hide ReadsInRange; hide StreamEvents; hide Playable; hide Play;
    hide AllKnown; hide Words;
    InRangeReads(input, d, es);
    StartProbs(input, |before|, probs);
    if |ps| <= |qs| {
      StreamUnique(input, d, props, dict, s, ps, qs);
      if |ps| < |qs| {
        PlayLonger(dict, s, ps, qs);
      }
    } else {
      StreamUnique(input, d, props, dict, s, qs, ps);
      PlayLonger(dict, s, qs, ps);
    }
  }

  lemma StartProbs(input: seq<nat>, start: nat, probs: seq<nat>)
    requires start + 4 <= |input|
    ensures Start(input, start, probs).probs == probs
  {
  }
}
