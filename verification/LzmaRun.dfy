/**
 What becomes of the input of one chunk: the packets that are read and written one after the
 other, and how that ends.
 */
module LzmaRun {
  import opened LzmaRange
  import opened LzmaPackets
  import opened LzmaStream

  /** Next: the chunk ends as it should.  Stuck: the copy loop is entered with a distance that
      has wrapped around to 0 and never ends. */
  datatype Outcome = Next | Failed | Stuck

  /** The input, where it ends for this chunk, and how much is to be written; size is the size of
      the output buffer. */
  datatype Chunk = Chunk(input: seq<nat>, props: Properties, dict: nat, limit: nat, target: nat, size: nat)

  /** The loop is left before the next packet. */
  ghost predicate AtEnd(c: Chunk, d: Decoder, s: Written) {
    d.off >= c.limit || |s.out| == c.target
  }

  /** The events of packet p after s. */
  ghost function EventsOf(c: Chunk, s: Written, p: Packet): seq<Event>
    requires c.props.Valid() && Sound(c.dict, s) && Encodable(p)
  {
    PacketEvents(s.h, PlaceOf(c.props, c.dict, s), p)
  }

  ghost predicate State(c: Chunk, d: Decoder, s: Written) {
    c.props.Valid() && Sound(c.dict, s) && Words(d) && |d.probs| == TOTAL
  }

  /** The next packet of the input is p, and d' is the decoder behind it. */
  ghost predicate Reading(c: Chunk, d: Decoder, s: Written, p: Packet, d': Decoder) {
    State(c, d, s) && Encodable(p) && Path(c.input, d, EventsOf(c, s, p), d')
  }

  /** A packet with the distance of the end mark. */
  ghost predicate IsEndMark(s: Written, p: Packet)
    requires s.h.Valid() && Encodable(p)
  {
    NextHistory(s.h, p).d0 == WORD - 1
  }

  ghost predicate Writable(c: Chunk, s: Written, p: Packet)
    requires Sound(c.dict, s)
  {
    Reaches(c.dict, s, p) && |s.out| + Size(p) <= c.size && !IsEndMark(s, p)
  }

  /** Packet p is read and written; e and t are what is left and what is there then. */
  ghost predicate Does(c: Chunk, d: Decoder, s: Written, p: Packet, e: Decoder, t: Written) {
    Reading(c, d, s, p, e) && Writable(c, s, p) && t == Write(c.dict, s, p)
  }

  /** From d and s the packets ps are read and written, up to d' and s'. */
  ghost predicate Goes(c: Chunk, d: Decoder, s: Written, ps: seq<Packet>, d': Decoder, s': Written)
    decreases |ps|
  {
    if ps == [] then d' == d && s' == s
    else
      && !AtEnd(c, d, s)
      && exists e, t :: Does(c, d, s, ps[0], e, t) && Goes(c, e, t, ps[1..], d', s')
  }

  /** At d and s the run ends: as it should, or because packet p cannot be written. */
  ghost predicate Stops(c: Chunk, d: Decoder, s: Written, o: Outcome, p: Packet) {
    if AtEnd(c, d, s) then o.Next?
    else
      && !o.Next? && (exists e :: Reading(c, d, s, p, e)) && !Writable(c, s, p)
      && (o.Stuck? <==> IsEndMark(s, p) && |s.out| + Size(p) <= c.size)
  }

  /** The run over the packets ps ends with o, at packet p if o is not Next. */
  ghost predicate Ends(c: Chunk, d: Decoder, s: Written, ps: seq<Packet>, o: Outcome, p: Packet) {
    exists d', s' :: Goes(c, d, s, ps, d', s') && Stops(c, d', s', o, p)
  }

  lemma ReadingUnique(c: Chunk, d: Decoder, s: Written, p: Packet, q: Packet, e: Decoder, f: Decoder)
    requires Reading(c, d, s, p, e) && Reading(c, d, s, q, f)
    ensures p == q && e == f
  {
    hide PacketEvents; hide PlaceOf; hide Reads; hide After; hide Words; hide AllKnown;
    if p != q {
      var w := PlaceOf(c.props, c.dict, s);
      PacketsPart(s.h, w, p, q);
      var k: nat :| PartAt(EventsOf(c, s, p), EventsOf(c, s, q), k);
      PartNotBoth(c.input, d, EventsOf(c, s, p), EventsOf(c, s, q), k);
    }
  }

  lemma DoesUnique(c: Chunk, d: Decoder, s: Written, p: Packet, e: Decoder, t: Written, q: Packet, f: Decoder,
      u: Written)
    requires Does(c, d, s, p, e, t) && Does(c, d, s, q, f, u)
    ensures p == q && e == f && t == u
  {
    hide Reading; hide Writable; hide Write;
    ReadingUnique(c, d, s, p, q, e, f);
  }

  /** What stops the run is not done. */
  lemma StopsOrDoes(c: Chunk, d: Decoder, s: Written, o: Outcome, p: Packet, q: Packet, f: Decoder, u: Written)
    requires Stops(c, d, s, o, p) && !AtEnd(c, d, s)
    ensures !Does(c, d, s, q, f, u)
  {
    hide AtEnd; hide IsEndMark; hide Size;
    if Does(c, d, s, q, f, u) {
      var e :| Reading(c, d, s, p, e);
      hide Reading; hide Writable; hide Write;
      ReadingUnique(c, d, s, p, q, e, f);
    }
  }

  lemma StopsUnique(c: Chunk, d: Decoder, s: Written, o: Outcome, p: Packet, u: Outcome, q: Packet)
    requires Stops(c, d, s, o, p) && Stops(c, d, s, u, q)
    ensures o == u && (!o.Next? ==> p == q)
  {
    hide AtEnd; hide Reading; hide Writable; hide Write;
    if !AtEnd(c, d, s) {
      var e :| Reading(c, d, s, p, e);
      var f :| Reading(c, d, s, q, f);
      ReadingUnique(c, d, s, p, q, e, f);
    }
  }

  lemma {:induction false} RunUnique(c: Chunk, d: Decoder, s: Written, ps: seq<Packet>, d1: Decoder, s1: Written,
      o: Outcome, p: Packet,
                                     qs: seq<Packet>, d2: Decoder, s2: Written, u: Outcome, q: Packet)
    requires Goes(c, d, s, ps, d1, s1) && Stops(c, d1, s1, o, p)
    requires Goes(c, d, s, qs, d2, s2) && Stops(c, d2, s2, u, q)
    ensures ps == qs && d1 == d2 && s1 == s2 && o == u && (!o.Next? ==> p == q)
    decreases |ps|
  {
    hide Does; hide Stops; hide AtEnd;
    if ps == [] && qs == [] {
      StopsUnique(c, d, s, o, p, u, q);
    } else if ps == [] {
      var f, t :| Does(c, d, s, qs[0], f, t) && Goes(c, f, t, qs[1..], d2, s2);
      StopsOrDoes(c, d, s, o, p, qs[0], f, t);
    } else if qs == [] {
      var e, t :| Does(c, d, s, ps[0], e, t) && Goes(c, e, t, ps[1..], d1, s1);
      StopsOrDoes(c, d, s, u, q, ps[0], e, t);
    } else {
      var e, t :| Does(c, d, s, ps[0], e, t) && Goes(c, e, t, ps[1..], d1, s1);
      var f, v :| Does(c, d, s, qs[0], f, v) && Goes(c, f, v, qs[1..], d2, s2);
      DoesUnique(c, d, s, ps[0], e, t, qs[0], f, v);
      RunUnique(c, e, t, ps[1..], d1, s1, o, p, qs[1..], d2, s2, u, q);
      assert ps == [ps[0]] + ps[1..] && qs == [qs[0]] + qs[1..];
    }
  }

  /** An input has one run: one sequence of packets and one ending. */
  lemma EndsUnique(c: Chunk, d: Decoder, s: Written, ps: seq<Packet>, o: Outcome, p: Packet, qs: seq<Packet>,
      u: Outcome, q: Packet)
    requires Ends(c, d, s, ps, o, p) && Ends(c, d, s, qs, u, q)
    ensures ps == qs && o == u && (!o.Next? ==> p == q)
  {
    hide Goes; hide Stops;
    var d1, s1 :| Goes(c, d, s, ps, d1, s1) && Stops(c, d1, s1, o, p);
    var d2, s2 :| Goes(c, d, s, qs, d2, s2) && Stops(c, d2, s2, u, q);
    RunUnique(c, d, s, ps, d1, s1, o, p, qs, d2, s2, u, q);
  }

  /** One packet more. */
  lemma {:induction false} GoesOn(c: Chunk, d: Decoder, s: Written, ps: seq<Packet>, d1: Decoder, s1: Written,
      p: Packet, e: Decoder, t: Written)
    requires Goes(c, d, s, ps, d1, s1) && !AtEnd(c, d1, s1) && Does(c, d1, s1, p, e, t)
    ensures Goes(c, d, s, ps + [p], e, t)
    decreases |ps|
  {
    hide Does; hide AtEnd;
    var qs := ps + [p];
    if ps == [] {
      assert qs[0] == p && qs[1..] == [];
      assert Goes(c, e, t, [], e, t);
    } else {
      var f, v :| Does(c, d, s, ps[0], f, v) && Goes(c, f, v, ps[1..], d1, s1);
      assert qs[0] == ps[0] && qs[1..] == ps[1..] + [p];
      GoesOn(c, f, v, ps[1..], d1, s1, p, e, t);
    }
  }

  /** The packets that are gone through can be played, and their events lead there. */
  lemma {:induction false} GoesPlays(c: Chunk, d: Decoder, s: Written, ps: seq<Packet>, d': Decoder, s': Written)
    requires Goes(c, d, s, ps, d', s') && State(c, d, s)
    ensures Playable(c.dict, s, ps) && Play(c.dict, s, ps) == s'
    ensures Path(c.input, d, StreamEvents(c.props, c.dict, s, ps), d') && State(c, d', s')
    decreases |ps|
  {
    hide PacketEvents; hide PlaceOf; hide Write; hide Path; hide Words; hide AtEnd;
    if ps == [] {
      PathNone(c.input, d);
    } else {
      var e, t :| Does(c, d, s, ps[0], e, t) && Goes(c, e, t, ps[1..], d', s');
      PathKeeps(c.input, d, EventsOf(c, s, ps[0]), e);
      GoesPlays(c, e, t, ps[1..], d', s');
      PathJoin(c.input, d, EventsOf(c, s, ps[0]), e, StreamEvents(c.props, c.dict, t, ps[1..]), d');
    }
  }

  lemma PathKeeps(input: seq<nat>, d: Decoder, es: seq<Event>, d': Decoder)
    requires Path(input, d, es, d')
    ensures Words(d') && |d'.probs| == |d.probs|
  {
  }

  // ----- inputs that hold a plan

  /** No history has the distance of the end mark in it. */
  ghost predicate NoEndMark(h: History) {
    h.d0 != WORD - 1 && h.d1 != WORD - 1 && h.d2 != WORD - 1 && h.d3 != WORD - 1
  }

  /** The packets can be played within the sizes of the chunk. */
  ghost predicate Plan(c: Chunk, s: Written, plan: seq<Packet>) {
    && c.props.Valid() && Sound(c.dict, s) && NoEndMark(s.h) && Playable(c.dict, s, plan)
    && |Play(c.dict, s, plan).out| <= c.size < WORD
  }

  /** A packet that reaches back within the output is not the end mark. */
  lemma ReachesMark(c: Chunk, s: Written, p: Packet)
    requires Sound(c.dict, s) && NoEndMark(s.h) && Reaches(c.dict, s, p) && |s.out| + Size(p) <= c.size < WORD
    ensures Writable(c, s, p) && NoEndMark(Write(c.dict, s, p).h)
  {
  }

  lemma {:induction false} OffGrows(input: seq<nat>, d: Decoder, es: seq<Event>)
    requires Words(d) && AllKnown(es, d.probs)
    ensures After(input, d, es).off >= d.off
    decreases |es|
  {
    if es != [] {
      assert es[0] in es;
      OffGrows(input, ReadBit(input, d, es[0].choice).1, es[1..]);
    }
  }

  lemma {:induction false} AfterSplit(input: seq<nat>, d: Decoder, a: seq<Event>, b: seq<Event>)
    requires Words(d) && AllKnown(a + b, d.probs) && AllKnown(a, d.probs) && AllKnown(b, After(input, d, a).probs)
    ensures After(input, d, a + b) == After(input, After(input, d, a), b)
    decreases |a|
  {
    if a == [] {
      assert a + b == b;
    } else {
      assert a[0] in a && (a + b)[0] == a[0] && (a + b)[1..] == a[1..] + b;
      AfterSplit(input, ReadBit(input, d, a[0].choice).1, a[1..], b);
    }
  }

  /** An input with the events of a plan goes through the plan, if there is more to do before
      each of its packets. */
  lemma {:induction false} PlanGoes(c: Chunk, d: Decoder, s: Written, plan: seq<Packet>, d': Decoder)
    requires Plan(c, s, plan) && State(c, d, s) && Path(c.input, d, StreamEvents(c.props, c.dict, s, plan), d')
    requires d'.off < c.limit && |Play(c.dict, s, plan).out| <= c.target
    ensures Goes(c, d, s, plan, d', Play(c.dict, s, plan)) && State(c, d', Play(c.dict, s, plan))
    ensures NoEndMark(Play(c.dict, s, plan).h)
    decreases |plan|
  {
    hide PacketEvents; hide PlaceOf; hide Write; hide Words; hide Reads; hide After; hide AllKnown;
    if plan == [] {
      assert d' == After(c.input, d, []);
      AfterNone(c.input, d);
    } else {
      var p, a := plan[0], EventsOf(c, s, plan[0]);
      var t := Write(c.dict, s, p);
      var b := StreamEvents(c.props, c.dict, t, plan[1..]);
      ReadsSplit(c.input, d, a, b);
      AfterSplit(c.input, d, a, b);
      var e := After(c.input, d, a);
      OffGrows(c.input, d, a);
      OffGrows(c.input, e, b);
      ReachesMark(c, s, p);
      PathKeeps(c.input, d, a, e);
      PlanGoes(c, e, t, plan[1..], d');
      assert Does(c, d, s, p, e, t);
    }
  }

  lemma AfterNone(input: seq<nat>, d: Decoder)
    requires Words(d)
    ensures After(input, d, []) == d
  {
  }

  /** A plan that fills the chunk is the run. */
  lemma PlanEnds(c: Chunk, d: Decoder, s: Written, plan: seq<Packet>, d': Decoder, p: Packet)
    requires Plan(c, s, plan) && State(c, d, s) && Path(c.input, d, StreamEvents(c.props, c.dict, s, plan), d')
    requires d'.off < c.limit && |Play(c.dict, s, plan).out| == c.target
    ensures Ends(c, d, s, plan, Next, p)
  {
    hide Goes; hide Path; hide Play; hide StreamEvents;
    PlanGoes(c, d, s, plan, d');
    assert Stops(c, d', Play(c.dict, s, plan), Next, p);
  }

  /** A plan followed by a match with the distance of the end mark gets stuck. */
  lemma MarkEnds(c: Chunk, d: Decoder, s: Written, plan: seq<Packet>, d1: Decoder, len: nat, d2: Decoder)
    requires Plan(c, s, plan) && State(c, d, s) && Path(c.input, d, StreamEvents(c.props, c.dict, s, plan), d1)
    requires d1.off < c.limit && |Play(c.dict, s, plan).out| < c.target && 2 <= len <= 273
    requires |Play(c.dict, s, plan).out| + len <= c.size
    requires Reading(c, d1, Play(c.dict, s, plan), Match(WORD - 1, len), d2)
    ensures Ends(c, d, s, plan, Stuck, Match(WORD - 1, len))
  {
    hide Goes; hide Path; hide Play; hide StreamEvents; hide EventsOf;
    PlanGoes(c, d, s, plan, d1);
    assert Stops(c, d1, Play(c.dict, s, plan), Stuck, Match(WORD - 1, len));
  }
}
