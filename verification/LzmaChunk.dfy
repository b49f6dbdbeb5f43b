/**
 The packet loop: the packets it reads are those of the input, what it writes is what they
 mean, and an encoded stream is decoded to the bytes it was made from.
 */
module LzmaChunk {
  import opened Bits
  import opened LzmaRange
  import opened LzmaPackets
  import opened LzmaStream
  import opened LzmaRun
  import opened LzmaDecoder
  import opened MatchCopy

  class Decompressor {
    const rd: RangeDecoder
    const out: array<nat>
    const props: Properties
    const dict: nat
    var lstate: nat
    var d0: nat
    var d1: nat
    var d2: nat
    var d3: nat
    var pos: nat

    ghost function Hist(): History
      reads this
    {
      History(lstate, d0, d1, d2, d3)
    }

    ghost predicate Valid()
      reads this, rd, rd.probs, out
    {
      && rd.Valid() && out != rd.probs && props.Valid() && Hist().Valid()
      && dict <= pos <= out.Length && AllBytes(out[..pos])
    }

    ghost function Text(): (s: Written)
      requires Valid()
      reads this, rd, rd.probs, out
      ensures Sound(dict, s)
    {
      Written(Hist(), out[..pos])
    }

    ghost predicate Ready()
      reads this, rd, rd.probs, out
    {
      Valid() && NoEndMark(Hist())
    }

    /** The state after a reset. */
    constructor (rd: RangeDecoder, out: array<nat>, props: Properties, dict: nat, pos: nat)
      requires rd.Valid() && out != rd.probs && props.Valid() && dict <= pos <= out.Length && AllBytes(out[..pos])
      ensures Ready() && this.rd == rd && this.out == out && this.props == props && this.dict == dict
      ensures Text() == Written(History(0, 0, 0, 0, 0), out[..pos])
    {
      this.rd, this.out, this.props, this.dict, this.pos := rd, out, props, dict, pos;
      lstate, d0, d1, d2, d3 := 0, 0, 0, 0, 0;
    }

    method Literal(posBits: nat) returns (v: nat)
      requires Ready() && posBits == pos - dict
      modifies rd, rd.probs
      ensures Valid() && v < 256
      ensures Path(rd.input, old(rd.State()), LiteralEvents(Hist(), PlaceOf(props, dict, Text()), v), rd.State())
    {
      hide Path; hide Words; hide Tree; hide Matched; hide Pow2; hide AllBytes; hide Probabilities;
      ghost var s := Text();
      PlaceBounds(props, dict, s);
      ByteAt(out, pos);
      var prev := if pos > 0 then out[pos - 1] else 0;
      var low := prev / Pow2(8 - props.lc);
      var high := posBits % Pow2(props.lp) * Pow2(props.lc);
      var base := LITERAL + (high + low) * CODER_SIZE;
      Pow2Values();
      if lstate < 7 {
        v := rd.Integer(base, 8);
      } else {
        var matchByte := if pos >= d0 + 1 then out[pos - d0 - 1] else 0;
        v := rd.MatchedLiteral(base, matchByte);
      }
    }

    /** Which distance is repeated; it moves to the front. */
    method RepeatedDistance(posState: nat) returns (short: bool, ghost which: nat)
      requires Ready() && posState < POS_STATES
      modifies this`d0, this`d1, this`d2, this`d3, rd, rd.probs
      ensures Ready() && which < 4 && (short ==> which == 0)
      ensures Hist() == NextHistory(old(Hist()), Rep(which, 2)).(state := lstate)
      ensures var long := IS_REP0_LONG + lstate * POS_STATES + posState;
              Path(rd.input, old(rd.State()),
                   if which == 0 then Ask(IS_REP0 + lstate, false) + Ask(long, !short) else RepEvents(lstate, which), rd.State())
    {
      hide Path; hide Words; hide Ask;
      ghost var s0 := rd.State();
      short, which := false, 0;
      var other := rd.Bit(IS_REP0 + lstate);
      ghost var s1 := rd.State();
      if other {
        var next;
        var b1 := rd.Bit(IS_REP1 + lstate);
        ghost var s2 := rd.State();
        PathJoin(rd.input, s0, Ask(IS_REP0 + lstate, true), s1, Ask(IS_REP1 + lstate, b1), s2);
        if b1 {
          var b2 := rd.Bit(IS_REP2 + lstate);
          PathJoin(rd.input, s0, Ask(IS_REP0 + lstate, true) + Ask(IS_REP1 + lstate, true), s2,
              Ask(IS_REP2 + lstate, b2), rd.State());
          if b2 {
            next, which := d3, 3;
            d3 := d2;
          } else {
            next, which := d2, 2;
          }
          d2 := d1;
        } else {
          next, which := d1, 1;
        }
        d1 := d0;
        d0 := next;
      } else {
        var long := rd.Bit(IS_REP0_LONG + lstate * POS_STATES + posState);
        short := !long;
        PathJoin(rd.input, s0, Ask(IS_REP0 + lstate, false), s1,
            Ask(IS_REP0_LONG + lstate * POS_STATES + posState, long), rd.State());
      }
    }

    method RepeatedMatch(posState: nat) returns (len: nat, ghost p: Packet)
      requires Ready() && posState < POS_STATES
      modifies this`d0, this`d1, this`d2, this`d3, this`lstate, rd, rd.probs
      ensures Ready() && (p.ShortRep? || p.Rep?) && Encodable(p) && len == Size(p)
      ensures Hist() == NextHistory(old(Hist()), p)
      ensures forall w: Place :: w.pos == posState ==>
            Path(rd.input, old(rd.State()), Repeated(old(Hist()), w, p), rd.State())
    {
      hide Path; hide Words; hide Ask; hide LenEvents; hide RepEvents;
      ghost var s0, h := rd.State(), Hist();
      var short;
      ghost var which;
      short, which := RepeatedDistance(posState);
      ghost var s1 := rd.State();
      if lstate < 7 {
        lstate := if short then 9 else 8;
      } else {
        lstate := 11;
      }
      if short {
        len := 1;
        p := ShortRep;
      } else {
        len := rd.Length(REP_LEN, posState);
        p := Rep(which, len);
        ghost var x := LenEvents(REP_LEN, posState, len);
        ghost var a, b := Ask(IS_REP0 + h.state, false), Ask(IS_REP0_LONG + h.state * POS_STATES + posState, true);
        if which == 0 {
          PathJoin(rd.input, s0, a + b, s1, x, rd.State());
          assert a + b + x == a + (b + x);
        } else {
          PathJoin(rd.input, s0, RepEvents(h.state, which), s1, x, rd.State());
        }
      }
    }

    method NewMatch(posState: nat) returns (len: nat, ghost p: Packet)
      requires Ready() && posState < POS_STATES
      modifies this`d0, this`d1, this`d2, this`d3, this`lstate, rd, rd.probs
      ensures Valid() && p.Match? && Encodable(p) && len == Size(p)
      ensures Hist() == NextHistory(old(Hist()), p)
      ensures Path(rd.input, old(rd.State()), LenEvents(MATCH_LEN, posState, p.len) + DistEvents(p.len, p.dist),
          rd.State())
    {
      hide Path; hide Words; hide LenEvents; hide DistEvents;
      ghost var s0 := rd.State();
      if lstate < 7 {
        lstate := 7;
      } else {
        lstate := 10;
      }
      d3 := d2;
      d2 := d1;
      d1 := d0;
      len := rd.Length(MATCH_LEN, posState);
      ghost var s1 := rd.State();
      d0 := rd.Distance(len);
      p := Match(d0, len);
      PathJoin(rd.input, s0, LenEvents(MATCH_LEN, posState, len), s1, DistEvents(len, d0), rd.State());
    }

    /** The rest of a match, after the decision that it is one. */
    method MatchPacket(posState: nat) returns (len: nat, ghost p: Packet)
      requires Ready() && posState < POS_STATES
      modifies this`d0, this`d1, this`d2, this`d3, this`lstate, rd, rd.probs
      ensures Valid() && !p.Literal? && Encodable(p) && len == Size(p) && (p.Match? || Ready())
      ensures Hist() == NextHistory(old(Hist()), p)
      ensures forall w: Place :: w.pos == posState ==>
                Path(rd.input, old(rd.State()), Ask(IS_REP + old(lstate), !p.Match?) +
                     (if p.Match? then LenEvents(MATCH_LEN, posState, p.len) + DistEvents(p.len, p.dist)
                      else Repeated(old(Hist()), w, p)), rd.State())
    {
      hide Path; hide Words; hide LenEvents; hide DistEvents; hide Repeated; hide Ask;
      ghost var s0, h := rd.State(), Hist();
      var rep := rd.Bit(IS_REP + lstate);
      ghost var s1 := rd.State();
      if rep {
        len, p := RepeatedMatch(posState);
        forall w: Place | w.pos == posState
          ensures Path(rd.input, s0, Ask(IS_REP + h.state, true) + Repeated(h, w, p), rd.State())
        {
          PathJoin(rd.input, s0, Ask(IS_REP + h.state, true), s1, Repeated(h, w, p), rd.State());
        }
      } else {
        len, p := NewMatch(posState);
        PathJoin(rd.input, s0, Ask(IS_REP + h.state, false), s1,
            LenEvents(MATCH_LEN, posState, p.len) + DistEvents(p.len, p.dist), rd.State());
      }
    }

    /** Check the distance and the room, and copy. */
    method CopyPacket(len: nat, ghost s: Written, ghost p: Packet) returns (r: Outcome)
      requires Valid() && !p.Literal? && Encodable(p) && len == Size(p) >= 1
      requires Sound(dict, s) && s.out == out[..pos] && Hist() == NextHistory(s.h, p) && NoEndMark(s.h)
      modifies this`pos, out
      ensures Valid() && Hist() == old(Hist())
      ensures r == if d0 == WORD - 1 then (if old(pos) + len <= out.Length then Stuck else Failed)
                   else if Reaches(dict, s, p) && old(pos) + len <= out.Length then Next else Failed
      ensures r.Next? ==> Ready() && Text() == Write(dict, s, p)
      ensures r.Next? ==> out[pos..] == old(out[..])[pos..]
      ensures !r.Next? ==> pos == old(pos) && out[..] == old(out[..])
    {
      hide RefCopy; hide Words; hide Write; hide NextHistory; hide WORD;
      DistanceWord(d0);
      var distance := (d0 + 1) % WORD;
      if pos - dict < distance || pos + len > out.Length {
        return Failed;
      }
      if distance == 0 {
        return Stuck;
      }
      HistoryKept(s.h, p);
      WriteCopy(dict, s, p);
      CopyMatch(out, pos, distance, len);
      assert out[pos + len..] == old(out[..])[pos + len..];
      pos := pos + len;
      return Next;
    }

    method PutLiteral(v: nat, ghost s: Written) returns (r: Outcome)
      requires Ready() && v < 256 && s == Text()
      modifies this`pos, this`lstate, out
      ensures Ready() && r == if old(pos) < out.Length then Next else Failed
      ensures r.Next? ==> Text() == Write(dict, s, Packet.Literal(v))
      ensures r.Next? ==> out[pos..] == old(out[..])[pos..]
      ensures !r.Next? ==> pos == old(pos) && out[..] == old(out[..]) && lstate == old(lstate)
    {
      if pos >= out.Length {
        return Failed;
      }
      out[pos] := v;
      assert out[..pos + 1] == s.out + [v];
      pos := pos + 1;
      if lstate <= 3 {
        lstate := 0;
      } else if lstate <= 9 {
        lstate := lstate - 3;
      } else {
        lstate := lstate - 6;
      }
      return Next;
    }

    /** A packet that is not a literal, after its first decision. */
    method MatchStep(posState: nat, ghost s: Written, ghost w: Place) returns (r: Outcome, ghost p: Packet)
      requires Ready() && s == Text() && w == PlaceOf(props, dict, s) && posState == w.pos
      modifies this`d0, this`d1, this`d2, this`d3, this`lstate, this`pos, rd, rd.probs, out
      ensures Valid() && Encodable(p) && !p.Literal?
          && Path(rd.input, old(rd.State()), PacketTail(s.h, w, p), rd.State())
      ensures StepOutcome(dict, s, p, out.Length, r)
      ensures r.Next? ==> Ready() && Text() == Write(dict, s, p) && out[pos..] == old(out[..])[pos..]
      ensures !r.Next? ==> pos == old(pos) && out[..] == old(out[..])
    {
      hide Path; hide Words; hide LenEvents; hide DistEvents; hide Repeated; hide Ask; hide NextHistory; hide Write;
      hide Reaches;
      hide PlaceOf; hide Probabilities;
      var len;
      len, p := MatchPacket(posState);
      r := CopyPacket(len, s, p);
    }

    /** A literal, after its first decision. */
    method LiteralStep(posBits: nat, ghost s: Written, ghost w: Place) returns (r: Outcome, ghost p: Packet)
      requires Ready() && s == Text() && w == PlaceOf(props, dict, s) && posBits == pos - dict
      modifies this`pos, this`lstate, rd, rd.probs, out
      ensures Valid() && Encodable(p) && p.Literal?
          && Path(rd.input, old(rd.State()), LiteralEvents(s.h, w, p.byte), rd.State())
      ensures StepOutcome(dict, s, p, out.Length, r)
      ensures r.Next? ==> Ready() && Text() == Write(dict, s, p) && out[pos..] == old(out[..])[pos..]
      ensures !r.Next? ==> pos == old(pos) && out[..] == old(out[..])
    {
      hide Path; hide Words; hide LiteralEvents; hide Write; hide PlaceOf; hide Probabilities; hide AllBytes;
      var v := Literal(posBits);
      p := Packet.Literal(v);
      r := PutLiteral(v, s);
    }

    /** One packet. */
    method Step() returns (r: Outcome, ghost p: Packet)
      requires Ready()
      modifies this`d0, this`d1, this`d2, this`d3, this`lstate, this`pos, rd, rd.probs, out
      ensures Valid() && Encodable(p)
      ensures Path(rd.input, old(rd.State()), PacketEvents(old(Hist()), PlaceOf(props, dict, old(Text())), p),
          rd.State())
      ensures StepOutcome(dict, old(Text()), p, out.Length, r)
      ensures r.Next? ==> Ready() && Text() == Write(dict, old(Text()), p)
      ensures r.Next? ==> out[pos..] == old(out[..])[pos..]
      ensures !r.Next? ==> pos == old(pos) && out[..] == old(out[..])
    {
      hide Path; hide Words; hide LenEvents; hide DistEvents; hide Repeated; hide Ask; hide LiteralEvents;
      hide PacketEvents;
      hide StepOutcome; hide Write; hide Probabilities; hide AllBytes; hide PacketTail; hide NoEndMark;
      ghost var s0, s := rd.State(), Text();
      ghost var w := PlaceOf(props, dict, s);
      var posBits := pos - dict;
      var posState := posBits % Pow2(props.pb);
      var i := IS_MATCH + lstate * POS_STATES + posState;
      var isMatch := rd.Bit(i);
      ghost var s1 := rd.State();
      if isMatch {
        r, p := MatchStep(posState, s, w);
        TailShape(s.h, w, p);
        PathJoin(rd.input, s0, Ask(i, true), s1, PacketTail(s.h, w, p), rd.State());
      } else {
        r, p := LiteralStep(posBits, s, w);
        TailShape(s.h, w, p);
        PathJoin(rd.input, s0, Ask(i, false), s1, LiteralEvents(s.h, w, p.byte), rd.State());
      }
    }

    ghost function ChunkOf(limit: nat, target: nat): Chunk {
      Chunk(rd.input, props, dict, limit, target, out.Length)
    }

    /** The packets of one chunk, until the expected bytes are written or the input of the chunk
        is used up.  How it ends is how the run over the packets in the input ends. */
    method Run(limit: nat, target: nat) returns (r: Outcome, ghost ps: seq<Packet>, ghost p: Packet)
      requires Ready()
      modifies this`d0, this`d1, this`d2, this`d3, this`lstate, this`pos, rd, rd.probs, out
      ensures Valid() && Ends(ChunkOf(limit, target), old(rd.State()), old(Text()), ps, r, p)
      ensures forall qs, u, q :: Ends(ChunkOf(limit, target), old(rd.State()), old(Text()), qs, u, q) ==>
            u == r && qs == ps
      ensures Playable(dict, old(Text()), ps) && out[..pos] == Play(dict, old(Text()), ps).out
      ensures r.Next? ==> Text() == Play(dict, old(Text()), ps)
      ensures out[pos..] == old(out[..])[pos..]
    {
      hide Goes; hide Stops; hide Does; hide Ends; hide Path; hide Words; hide Play; hide Playable; hide NoEndMark;
      hide Write; hide Reaches;
      hide PacketEvents; hide PlaceOf;
      ghost var s, d, c := Text(), rd.State(), ChunkOf(limit, target);
      ps, p := [], ShortRep;
      GoesNowhere(c, d, s);
      while rd.off < limit
        invariant Ready() && Goes(c, d, s, ps, rd.State(), Text())
        invariant out[pos..] == old(out[..])[pos..]
        decreases out.Length - pos
      {
        if pos == target {
          break;
        }
        ghost var s1, d1 := Text(), rd.State();
        r, p := Step();
        if !r.Next? {
          StepStops(c, d1, s1, r, p, rd.State());
          Finish(c, d, s, ps, d1, s1, r, p);
          return;
        }
        StepDoes(c, d1, s1, p, rd.State(), Text());
        GoesOn(c, d, s, ps, d1, s1, p, rd.State(), Text());
        ps := ps + [p];
      }
      r := Next;
      RunsOut(c, rd.State(), Text(), p);
      Finish(c, d, s, ps, rd.State(), Text(), r, p);
      rd.NormalizeRange();
    }
  }

  lemma GoesNowhere(c: Chunk, d: Decoder, s: Written)
    ensures Goes(c, d, s, [], d, s)
  {
  }

  lemma StepDoes(c: Chunk, d: Decoder, s: Written, p: Packet, e: Decoder, t: Written)
    requires State(c, d, s) && Encodable(p) && Path(c.input, d, PacketEvents(s.h, PlaceOf(c.props, c.dict, s), p), e)
    requires Reaches(c.dict, s, p) && |s.out| + Size(p) <= c.size && NextHistory(s.h, p).d0 != WORD - 1
    requires t == Write(c.dict, s, p)
    ensures Does(c, d, s, p, e, t)
  {
    hide Path; hide PacketEvents; hide PlaceOf; hide Write;
  }

  lemma StepStops(c: Chunk, d: Decoder, s: Written, r: Outcome, p: Packet, e: Decoder)
    requires State(c, d, s) && Encodable(p) && Path(c.input, d, PacketEvents(s.h, PlaceOf(c.props, c.dict, s), p), e)
    requires !AtEnd(c, d, s) && !r.Next?
    requires !(Reaches(c.dict, s, p) && |s.out| + Size(p) <= c.size && NextHistory(s.h, p).d0 != WORD - 1)
    requires r.Stuck? <==> NextHistory(s.h, p).d0 == WORD - 1 && |s.out| + Size(p) <= c.size
    ensures Stops(c, d, s, r, p)
  {
    hide Path; hide PacketEvents; hide PlaceOf; hide AtEnd;
    assert Reading(c, d, s, p, e);
  }

  lemma RunsOut(c: Chunk, d: Decoder, s: Written, p: Packet)
    requires AtEnd(c, d, s)
    ensures Stops(c, d, s, Next, p)
  {
  }

  /** The run, and that there is no other. */
  lemma Finish(c: Chunk, d: Decoder, s: Written, ps: seq<Packet>, d': Decoder, s': Written, r: Outcome, p: Packet)
    requires State(c, d, s) && Goes(c, d, s, ps, d', s') && Stops(c, d', s', r, p)
    ensures Ends(c, d, s, ps, r, p) && Playable(c.dict, s, ps) && Play(c.dict, s, ps) == s'
    ensures forall qs, u, q :: Ends(c, d, s, qs, u, q) ==> u == r && qs == ps
  {
    hide Goes; hide Stops; hide Play; hide Playable;
    GoesPlays(c, d, s, ps, d', s');
    assert Ends(c, d, s, ps, r, p);
    hide Ends;
    forall qs, u, q | Ends(c, d, s, qs, u, q) ensures u == r && qs == ps {
      EndsUnique(c, d, s, ps, r, p, qs, u, q);
    }
  }

  lemma ByteAt(out: array<nat>, pos: nat)
    requires pos <= out.Length && AllBytes(out[..pos])
    ensures forall i :: 0 <= i < pos ==> out[i] == out[..pos][i] < 256
  {
  }

  lemma DistanceWord(d0: nat)
    requires d0 < WORD
    ensures (d0 + 1) % WORD == if d0 == WORD - 1 then 0 else d0 + 1
  {
  }

  lemma HistoryKept(h: History, p: Packet)
    requires h.Valid() && NoEndMark(h) && Encodable(p) && NextHistory(h, p).d0 != WORD - 1
    ensures NoEndMark(NextHistory(h, p))
  {
  }

  lemma WriteCopy(dict: nat, s: Written, p: Packet)
    requires Sound(dict, s) && Reaches(dict, s, p) && !p.Literal?
    ensures Write(dict, s, p) == Written(NextHistory(s.h, p), RefCopy(s.out, NextHistory(s.h, p).d0 + 1, Size(p)))
    ensures AllBytes(Write(dict, s, p).out)
  {
  }

  /** How a packet after s comes out. */
  ghost predicate StepOutcome(dict: nat, s: Written, p: Packet, size: nat, r: Outcome)
    requires Sound(dict, s) && Encodable(p)
  {
    && (r.Next? <==> Reaches(dict, s, p) && |s.out| + Size(p) <= size && NextHistory(s.h, p).d0 != WORD - 1)
    && (r.Stuck? <==> NextHistory(s.h, p).d0 == WORD - 1 && |s.out| + Size(p) <= size)
  }

  lemma TailShape(h: History, w: Place, p: Packet)
    requires Encodable(p)
    ensures PacketEvents(h, w, p) == Ask(IS_MATCH + h.state * POS_STATES + w.pos, !p.Literal?) +
                                     (if p.Literal? then LiteralEvents(h, w, p.byte) else PacketTail(h, w, p))
  {
    hide LenEvents; hide DistEvents; hide Repeated; hide Ask; hide LiteralEvents; hide PacketEvents;
    PacketShape(h, w, p);
  }

  ghost function PacketTail(h: History, w: Place, p: Packet): seq<Event>
    requires Encodable(p) && !p.Literal?
  {
    Ask(IS_REP + h.state, !p.Match?) +
    (if p.Match? then LenEvents(MATCH_LEN, w.pos, p.len) + DistEvents(p.len, p.dist) else Repeated(h, w, p))
  }

  // ----- a whole chunk

  ghost function Fresh(): seq<nat> {
    seq(TOTAL, _ => 1024)
  }

  lemma FreshProbabilities()
    ensures Probabilities(Fresh()) && |Fresh()| == TOTAL
  {
  }

  /** The input from start on lies in the interval of these decisions, and the limit of the chunk
      is behind it. */
  ghost predicate Coded(c: Chunk, start: nat, es: seq<Event>) {
    AllKnown(es, Fresh()) &&
    (FreshProbabilities(); WholeGood(Fresh());
     var end := start + 4 + Encode(Whole(Fresh()), es).bytes;
     end <= |c.input| && end < c.limit && Inside(c.input, start, Encode(Whole(Fresh()), es)))
  }

  lemma CodedPath(c: Chunk, start: nat, es: seq<Event>) returns (d: Decoder)
    requires AllBytes(c.input) && Coded(c, start, es) && start + 4 <= |c.input|
    ensures Path(c.input, Start(c.input, start, Fresh()), es, d) && d.off < c.limit
  {
    hide StreamEvents; hide Reads; hide ReadsInRange; hide Value; hide Encode; hide Fresh; hide Probabilities;
    FreshProbabilities();
    WholeGood(Fresh());
    var e := Start(c.input, start, Fresh());
    StartDenotes(c, start, es);
    ReadsExactly(c.input, start, Whole(Fresh()), e, es);
    InRangeReads(c.input, e, es);
    d := After(c.input, e, es);
  }

  lemma StartDenotes(c: Chunk, start: nat, es: seq<Event>)
    requires AllBytes(c.input) && Coded(c, start, es) && start + 4 <= |c.input|
    ensures var d := Start(c.input, start, Fresh());
            Denotes(c.input, start, Whole(Fresh()), d) && d.code < d.range && Words(d) && AllKnown(es, d.probs)
  {
    hide Value; hide Encode; hide Fresh; hide Probabilities;
    FreshProbabilities();
    WholeGood(Fresh());
    Nested(c.input, start, Whole(Fresh()), es);
  }

  /** The bottom of the interval, with anything around it, is an input of that kind. */
  lemma BottomCoded(c: Chunk, before: seq<nat>, es: seq<Event>, after: seq<nat>)
    requires AllBytes(before) && AllBytes(after) && AllKnown(es, Fresh()) && Probabilities(Fresh())
    requires c.input == before + RangeEncode(Fresh(), es) + after && c.limit > |before| + |RangeEncode(Fresh(), es)|
    ensures Coded(c, |before|, es) && AllBytes(c.input)
  {
    hide Value; hide Encode; hide Fresh; hide Probabilities;
    FreshProbabilities();
    WholeGood(Fresh());
    InsideBottom(before, Fresh(), es, after);
  }

  /** The plan fills the chunk, and the input holds it. */
  ghost predicate HoldsPlan(c: Chunk, start: nat, s: Written, plan: seq<Packet>) {
    Plan(c, s, plan) && |Play(c.dict, s, plan).out| == c.target
        && Coded(c, start, StreamEvents(c.props, c.dict, s, plan))
  }

  /** The events of a plan and of a match with the distance of the end mark. */
  ghost function MarkEvents(c: Chunk, s: Written, plan: seq<Packet>, len: nat): seq<Event>
    requires Plan(c, s, plan) && 2 <= len <= 273
  {
    StreamEvents(c.props, c.dict, s, plan) + EventsOf(c, Play(c.dict, s, plan), Match(WORD - 1, len))
  }

  ghost predicate HoldsMark(c: Chunk, start: nat, s: Written, plan: seq<Packet>, len: nat) {
    && Plan(c, s, plan) && 2 <= len <= 273
    && |Play(c.dict, s, plan).out| < c.target && |Play(c.dict, s, plan).out| + len <= c.size
    && Coded(c, start, MarkEvents(c, s, plan, len))
  }

  lemma HeldPlanEnds(c: Chunk, start: nat, s: Written, plan: seq<Packet>)
    requires AllBytes(c.input) && start + 4 <= |c.input| && HoldsPlan(c, start, s, plan)
    ensures Ends(c, Start(c.input, start, Fresh()), s, plan, Next, ShortRep)
  {
    hide StreamEvents; hide Playable; hide Play; hide Start; hide Coded; hide Path; hide Fresh; hide Words; hide Ends;
    var d := CodedPath(c, start, StreamEvents(c.props, c.dict, s, plan));
    StartState(c, start, s);
    PlanEnds(c, Start(c.input, start, Fresh()), s, plan, d, ShortRep);
  }

  lemma StartState(c: Chunk, start: nat, s: Written)
    requires AllBytes(c.input) && start + 4 <= |c.input| && c.props.Valid() && Sound(c.dict, s)
    ensures State(c, Start(c.input, start, Fresh()), s)
  {
    FreshProbabilities();
    Pow256Four();
    ValueBelow(c.input[start..start + 4]);
  }

  lemma HeldMarkEnds(c: Chunk, start: nat, s: Written, plan: seq<Packet>, len: nat)
    requires AllBytes(c.input) && start + 4 <= |c.input| && HoldsMark(c, start, s, plan, len)
    ensures Ends(c, Start(c.input, start, Fresh()), s, plan, Stuck, Match(WORD - 1, len))
  {
    hide StreamEvents; hide Playable; hide Play; hide Start; hide Coded; hide Fresh; hide Words; hide Ends; hide Reads;
    hide After;
    hide PacketEvents; hide AllKnown; hide PlaceOf;
    var d2 := CodedPath(c, start, MarkEvents(c, s, plan, len));
    StartState(c, start, s);
    var d := Start(c.input, start, Fresh());
    var a, t := StreamEvents(c.props, c.dict, s, plan), Play(c.dict, s, plan);
    var b := EventsOf(c, t, Match(WORD - 1, len));
    ReadsSplit(c.input, d, a, b);
    AfterSplit(c.input, d, a, b);
    var d1 := After(c.input, d, a);
    PathKeeps(c.input, d, a, d1);
    OffGrows(c.input, d1, b);
    MarkEnds(c, d, s, plan, d1, len, d2);
  }

  /** Every plan has an encoding that an input can hold. */
  lemma CanEncode(c: Chunk, before: seq<nat>, after: seq<nat>, s: Written, plan: seq<Packet>)
    requires AllBytes(before) && AllBytes(after) && Plan(c, s, plan) && |Play(c.dict, s, plan).out| == c.target
    ensures Probabilities(Fresh()) && AllKnown(StreamEvents(c.props, c.dict, s, plan), Fresh())
    ensures var b := RangeEncode(Fresh(), StreamEvents(c.props, c.dict, s, plan));
            c.input == before + b + after && c.limit > |before| + |b| ==> HoldsPlan(c, |before|, s, plan)
  {
    hide Coded; hide StreamEvents; hide Play; hide Playable; hide RangeEncode; hide Fresh; hide Probabilities;
    FreshProbabilities();
    var es := StreamEvents(c.props, c.dict, s, plan);
    StreamListed(c.props, c.dict, s, plan);
    ListedKnown(es, Fresh());
    if c.input == before + RangeEncode(Fresh(), es) + after && c.limit > |before| + |RangeEncode(Fresh(), es)| {
      BottomCoded(c, before, es, after);
    }
  }

  /** So has every plan followed by a match that makes the decoder loop for ever. */
  lemma CanGetStuck(c: Chunk, before: seq<nat>, after: seq<nat>, s: Written, plan: seq<Packet>, len: nat)
    requires AllBytes(before) && AllBytes(after) && Plan(c, s, plan) && 2 <= len <= 273
    requires |Play(c.dict, s, plan).out| < c.target && |Play(c.dict, s, plan).out| + len <= c.size
    ensures Probabilities(Fresh()) && AllKnown(MarkEvents(c, s, plan, len), Fresh())
    ensures var b := RangeEncode(Fresh(), MarkEvents(c, s, plan, len));
            c.input == before + b + after && c.limit > |before| + |b| ==> HoldsMark(c, |before|, s, plan, len)
  {
    hide Coded; hide StreamEvents; hide Play; hide Playable; hide RangeEncode; hide Fresh; hide Probabilities;
    hide PacketEvents;
    FreshProbabilities();
    var t := Play(c.dict, s, plan);
    StreamListed(c.props, c.dict, s, plan);
    PacketListed(t.h, PlaceOf(c.props, c.dict, t), Match(WORD - 1, len));
    ListedJoin(StreamEvents(c.props, c.dict, s, plan), EventsOf(c, t, Match(WORD - 1, len)));
    var es := MarkEvents(c, s, plan, len);
    ListedKnown(es, Fresh());
    if c.input == before + RangeEncode(Fresh(), es) + after && c.limit > |before| + |RangeEncode(Fresh(), es)| {
      BottomCoded(c, before, es, after);
    }
  }

  /** In particular there is an input that makes a decoder with an empty output write one literal
      and loop for ever. */
  lemma StuckInput(props: Properties) returns (c: Chunk)
    requires props.Valid()
    ensures c.props == props && c.dict == 0 && AllBytes(c.input) && |c.input| >= 4
    ensures HoldsMark(c, 0, Written(History(0, 0, 0, 0, 0), []), [Literal(0)], 2)
  {
    hide RangeEncode; hide PacketEvents; hide PlaceOf; hide Fresh; hide Coded; hide Probabilities;
    var s, plan := Written(History(0, 0, 0, 0, 0), []), [Literal(0)];
    var sizes := Chunk([], props, 0, 0, 4, 8);
    assert plan[1..] == [];
    assert Playable(0, Write(0, s, Literal(0)), []) && |Play(0, Write(0, s, Literal(0)), []).out| == 1;
    assert Plan(sizes, s, plan);
    CanGetStuck(sizes, [], [], s, plan, 2);
    FreshProbabilities();
    var b := RangeEncode(Fresh(), MarkEvents(sizes, s, plan, 2));
    c := sizes.(input := b, limit := |b| + 1);
    assert [] + b + [] == b;
    CanGetStuck(c, [], [], s, plan, 2);
    EncodingIsLong(Fresh(), MarkEvents(sizes, s, plan, 2));
  }

  lemma EncodingIsLong(probs: seq<nat>, es: seq<Event>)
    requires Probabilities(probs) && AllKnown(es, probs)
    ensures |RangeEncode(probs, es)| >= 4
  {
  }

  method ResetProbabilities(probs: array<nat>)
    requires probs.Length == TOTAL
    modifies probs
    ensures probs[..] == Fresh()
  {
    for i := 0 to TOTAL
      invariant forall k :: 0 <= k < i ==> probs[k] == 1024
    {
      probs[i] := 1024;
    }
    assert probs[..] == Fresh();
  }

  /** How the run over the packets from start on ends, and what is written then. */
  ghost predicate Decodes(c: Chunk, start: nat, s: Written, r: Outcome, text: seq<nat>)
    requires c.props.Valid() && Sound(c.dict, s) && start + 4 <= |c.input|
  {
    var d := Start(c.input, start, Fresh());
    && (exists ps, p :: Ends(c, d, s, ps, r, p))
    && (forall ps, u, p :: Ends(c, d, s, ps, u, p) ==>
          u == r && Playable(c.dict, s, ps) && text == Play(c.dict, s, ps).out)
    && (forall plan :: HoldsPlan(c, start, s, plan) ==> r == Next && text == Play(c.dict, s, plan).out)
    && (forall plan, len :: HoldsMark(c, start, s, plan, len) ==> r == Stuck)
  }

  lemma DecodesIf(c: Chunk, start: nat, s: Written, r: Outcome, text: seq<nat>, ps: seq<Packet>, p: Packet)
    requires AllBytes(c.input) && c.props.Valid() && Sound(c.dict, s) && start + 4 <= |c.input|
    requires Ends(c, Start(c.input, start, Fresh()), s, ps, r, p)
    requires Playable(c.dict, s, ps) && text == Play(c.dict, s, ps).out
    ensures Decodes(c, start, s, r, text)
  {
    hide HoldsPlan; hide HoldsMark; hide Ends; hide Playable; hide Play; hide Start; hide Fresh;
    var d := Start(c.input, start, Fresh());
    forall qs, u, q | Ends(c, d, s, qs, u, q) ensures u == r && qs == ps {
      EndsUnique(c, d, s, ps, r, p, qs, u, q);
    }
    forall plan | HoldsPlan(c, start, s, plan)
      ensures Ends(c, d, s, plan, Next, ShortRep)
    {
      HeldPlanEnds(c, start, s, plan);
    }
    forall plan, len | HoldsMark(c, start, s, plan, len)
      ensures Ends(c, d, s, plan, Stuck, Match(WORD - 1, len))
    {
      HeldMarkEnds(c, start, s, plan, len);
    }
  }

  /** A chunk that resets the state: reset, read the code, run the packets.  However the run over
      the packets in the input ends, so does this, and what they mean is written.  An input that
      holds a plan is decoded to exactly what the plan means; one that holds the end mark gets
      stuck. */
  method DecodeChunk(input: seq<nat>, off: nat, size: nat, probs: array<nat>, out: array<nat>, props: Properties,
      dict: nat,
                     pos: nat, target: nat)
    returns (r: Outcome, pos': nat)
    requires AllBytes(input) && probs.Length == TOTAL && out != probs && props.Valid()
    requires dict <= pos <= out.Length && AllBytes(out[..pos])
    modifies probs, out
    ensures pos' <= out.Length && out[pos'..] == old(out[..])[pos'..]
    ensures off + 5 > |input| ==> r == Failed
    ensures off + 5 <= |input| ==>
              Decodes(Chunk(input, props, dict, off + 5 + size, target, out.Length), off + 1,
                      Written(History(0, 0, 0, 0, 0), old(out[..pos])), r, out[..pos'])
  {
    hide Decodes; hide Ends; hide Path; hide Words; hide Playable; hide Play; hide Start; hide Fresh;
    pos' := pos;
    if off + 5 > |input| {
      return Failed, pos;
    }
    FreshProbabilities();
    ghost var s, c := Written(History(0, 0, 0, 0, 0), out[..pos]),
        Chunk(input, props, dict, off + 5 + size, target, out.Length);
    ResetProbabilities(probs);
    var rd := new RangeDecoder(input, probs, off + 1);
    var dc := new Decompressor(rd, out, props, dict, pos);
    ghost var ps, p;
    r, ps, p := dc.Run(off + 5 + size, target);
    pos' := dc.pos;
    DecodesIf(c, off + 1, s, r, out[..pos'], ps, p);
  }
}
