/**
 The abbreviation table of a compilation unit (section 7.5.3 of DWARF 5): counted in one pass
 over the section, filled in a second one, sorted by code, and looked up by code.
 */
module Abbrevs {
  import opened Wrappers
  import opened Leb128
  import opened QuickSort

  const IMPLICIT_CONST: nat := 0x21

  /** The range of the enumerations that tags, names and forms are stored in. */
  const ENUM: nat := 0x1_0000_0000

  datatype Attr = Attr(name: nat, form: nat, val: int)
  datatype Abbrev = Abbrev(code: nat, tag: nat, children: nat, attrs: seq<Attr>)

  /** A value and the bytes after it, or not enough bytes. */
  datatype Parsed<T> = Parsed(value: T, rest: seq<nat>) | Failed

  // ----- the format

  /** One attribute specification; None for the pair that ends the list. */
  function RefAttr(b: seq<nat>): (r: Parsed<Option<Attr>>)
    ensures r.Parsed? ==> |r.rest| < |b|
  {
    var name := Uleb(b, 0);
    if !name.ok then Failed else
    var form := Uleb(b[name.used..], 0);
    if !form.ok then Failed else
    var b2 := b[name.used..][form.used..];
    var f := form.value % ENUM;
    if name.value == 0 then Parsed(None, b2)
    else if f != IMPLICIT_CONST then Parsed(Some(Attr(name.value % ENUM, f, 0)), b2)
    else
      var val := Sleb(b2, 0);
      if !val.ok then Failed
      else Parsed(Some(Attr(name.value % ENUM, f, Signed(val.value))), b2[val.used..])
  }

  function RefAttrs(b: seq<nat>): (r: Parsed<seq<Attr>>)
    ensures r.Parsed? ==> |r.rest| < |b|
    decreases |b|
  {
    match RefAttr(b)
    case Failed => Failed
    case Parsed(None, rest) => Parsed([], rest)
    case Parsed(Some(a), rest) =>
      match RefAttrs(rest)
      case Failed => Failed
      case Parsed(more, rest') => Parsed([a] + more, rest')
  }

  /** One abbreviation; None for the zero code that ends the table. */
  function RefAbbrev(b: seq<nat>): (r: Parsed<Option<Abbrev>>)
    ensures r.Parsed? ==> |r.rest| < |b|
  {
    var code := Uleb(b, 0);
    if !code.ok then Failed
    else if code.value == 0 then Parsed(None, b[code.used..])
    else RefBody(code.value, b[code.used..])
  }

  function RefBody(code: nat, b: seq<nat>): (r: Parsed<Option<Abbrev>>)
    ensures r.Parsed? ==> |r.rest| < |b| && r.value.Some?
  {
    var tag := Uleb(b, 0);
    var b1 := b[tag.used..];
    if !tag.ok || |b1| == 0 then Failed else
    match RefAttrs(b1[1..])
    case Failed => Failed
    case Parsed(attrs, rest) => Parsed(Some(Abbrev(code, tag.value % ENUM, b1[0], attrs)), rest)
  }

  function RefAbbrevs(b: seq<nat>): (r: Parsed<seq<Abbrev>>)
    ensures r.Parsed? ==> |r.rest| < |b|
    decreases |b|
  {
    match RefAbbrev(b)
    case Failed => Failed
    case Parsed(None, rest) => Parsed([], rest)
    case Parsed(Some(a), rest) =>
      match RefAbbrevs(rest)
      case Failed => Failed
      case Parsed(more, rest') => Parsed([a] + more, rest')
  }

  // ----- encoding a table

  ghost predicate WellFormedAttr(a: Attr) {
    && 1 <= a.name < ENUM && a.form < ENUM
    && if a.form == IMPLICIT_CONST then -(WORD / 2) <= a.val < WORD / 2 else a.val == 0
  }

  ghost predicate WellFormed(a: Abbrev) {
    1 <= a.code < WORD && a.tag < ENUM && forall x :: x in a.attrs ==> WellFormedAttr(x)
  }

  function EncodeAttr(a: Attr): seq<nat> {
    EncodeU(a.name) + (EncodeU(a.form) + if a.form == IMPLICIT_CONST then EncodeS(a.val) else [])
  }

  function EncodeAttrs(s: seq<Attr>): seq<nat> {
    if s == [] then [0, 0] else EncodeAttr(s[0]) + EncodeAttrs(s[1..])
  }

  function EncodeAbbrev(a: Abbrev): seq<nat> {
    EncodeU(a.code) + (EncodeU(a.tag) + ([a.children] + EncodeAttrs(a.attrs)))
  }

  function EncodeAbbrevs(s: seq<Abbrev>): seq<nat> {
    if s == [] then [0] else EncodeAbbrev(s[0]) + EncodeAbbrevs(s[1..])
  }

  lemma Assoc(a: seq<nat>, b: seq<nat>, c: seq<nat>)
    ensures (a + b) + c == a + (b + c)
  {
  }

  lemma ReadBackU(v: nat, rest: seq<nat>)
    requires v < WORD
    ensures var r := Uleb(EncodeU(v) + rest, 0);
            r.ok && r.value == v && (EncodeU(v) + rest)[r.used..] == rest
  {
    hide Uleb; hide EncodeU;
    UlebRoundTrip(v, rest);
  }

  lemma ReadBackS(v: int, rest: seq<nat>)
    requires -(WORD / 2) <= v < WORD / 2
    ensures var r := Sleb(EncodeS(v) + rest, 0);
            r.ok && Signed(r.value) == v && (EncodeS(v) + rest)[r.used..] == rest
  {
    hide Sleb; hide EncodeS; hide Signed;
    SlebRoundTrip(v, rest);
  }

  lemma SmallMod(x: nat)
    requires x < ENUM
    ensures x % ENUM == x && x < WORD
  {
  }

  lemma AttrRoundTrip(a: Attr, rest: seq<nat>)
    requires WellFormedAttr(a)
    ensures RefAttr(EncodeAttr(a) + rest) == Parsed(Some(a), rest)
  {
    hide Uleb; hide Sleb; hide EncodeU; hide EncodeS; hide Signed;
    var v := if a.form == IMPLICIT_CONST then EncodeS(a.val) else [];
    var n, f := EncodeU(a.name), EncodeU(a.form);
    Assoc(n, f + v, rest);
    Assoc(f, v, rest);
    SmallMod(a.name);
    SmallMod(a.form);
    ReadBackU(a.name, f + (v + rest));
    ReadBackU(a.form, v + rest);
    if a.form == IMPLICIT_CONST {
      ReadBackS(a.val, rest);
    } else {
      assert v + rest == rest;
    }
  }

  lemma EndOfAttrs(rest: seq<nat>)
    ensures RefAttr([0, 0] + rest) == Parsed(None, rest)
  {
    var b := [0, 0] + rest;
    var b1 := b[1..];
    assert b1[0] == 0 && b1[1..] == rest;
    assert Uleb(b, 0) == Number(0, 1, true) && Uleb(b1, 0) == Number(0, 1, true);
    hide Uleb;
  }

  lemma {:induction false} AttrsRoundTrip(s: seq<Attr>, rest: seq<nat>)
    requires forall x :: x in s ==> WellFormedAttr(x)
    ensures RefAttrs(EncodeAttrs(s) + rest) == Parsed(s, rest)
  {
    hide RefAttr; hide EncodeAttr; hide WellFormedAttr;
    if s == [] {
      EndOfAttrs(rest);
    } else {
      Assoc(EncodeAttr(s[0]), EncodeAttrs(s[1..]), rest);
      AttrRoundTrip(s[0], EncodeAttrs(s[1..]) + rest);
      AttrsRoundTrip(s[1..], rest);
      assert [s[0]] + s[1..] == s;
    }
  }

  lemma AbbrevRoundTrip(a: Abbrev, rest: seq<nat>)
    requires WellFormed(a)
    ensures RefAbbrev(EncodeAbbrev(a) + rest) == Parsed(Some(a), rest)
  {
    hide Uleb; hide EncodeU; hide EncodeAttrs; hide RefAttrs;
    var c, t, at := EncodeU(a.code), EncodeU(a.tag), EncodeAttrs(a.attrs);
    Assoc(c, t + ([a.children] + at), rest);
    Assoc(t, [a.children] + at, rest);
    Assoc([a.children], at, rest);
    SmallMod(a.tag);
    ReadBackU(a.code, t + ([a.children] + (at + rest)));
    ReadBackU(a.tag, [a.children] + (at + rest));
    var b1 := [a.children] + (at + rest);
    assert b1[1..] == at + rest;
    AttrsRoundTrip(a.attrs, rest);
  }

  lemma EndOfAbbrevs(rest: seq<nat>)
    ensures RefAbbrev([0] + rest) == Parsed(None, rest)
  {
    var b := [0] + rest;
    assert b[1..] == rest;
    assert Uleb(b, 0) == Number(0, 1, true);
    hide Uleb;
  }

  /** Reading the canonical encoding of any well-formed table gives the table back and stops
      at its end. */
  lemma {:induction false} TableRoundTrip(s: seq<Abbrev>, rest: seq<nat>)
    requires forall x :: x in s ==> WellFormed(x)
    ensures RefAbbrevs(EncodeAbbrevs(s) + rest) == Parsed(s, rest)
  {
    hide RefAbbrev; hide EncodeAbbrev; hide WellFormed;
    if s == [] {
      EndOfAbbrevs(rest);
    } else {
      Assoc(EncodeAbbrev(s[0]), EncodeAbbrevs(s[1..]), rest);
      AbbrevRoundTrip(s[0], EncodeAbbrevs(s[1..]) + rest);
      TableRoundTrip(s[1..], rest);
      assert [s[0]] + s[1..] == s;
    }
  }

  // ----- the counting pass

  /** After an underflow nothing is left, so every further read gives zero. */
  ghost predicate Sound(buf: DwarfBuf)
    reads buf
  {
    buf.Valid() && (buf.underflow ==> buf.Left() == [])
  }

  /** The first n items of r have been passed, and r' is what is left of it. */
  ghost predicate After<T>(r: Parsed<seq<T>>, n: nat, r': Parsed<seq<T>>) {
    && (r.Parsed? <==> r'.Parsed?)
    && (r.Parsed? ==> |r.value| == n + |r'.value| && r.rest == r'.rest)
  }

  /** The state just after reading, at b, the number that says whether a list goes on. */
  ghost predicate AtNumber(buf: DwarfBuf, b: seq<nat>, v: nat)
    reads buf
  {
    var x := Uleb(b, 0);
    Sound(buf) && v == x.value && buf.Left() == b[x.used..] && buf.underflow == !x.ok
  }

  method ReadNumber(buf: DwarfBuf) returns (v: nat)
    requires Sound(buf)
    modifies buf
    ensures AtNumber(buf, old(buf.Left()), v)
    ensures old(buf.underflow) ==> buf.underflow
  {
    v := buf.ReadUleb();
  }

  lemma NothingLeft()
    ensures Uleb([], 0) == Number(0, 0, false)
    ensures RefAttr([]).Failed? && RefAttrs([]).Failed? && RefAbbrev([]).Failed? && RefAbbrevs([]).Failed?
  {
  }

  /** Where the reader stands after the form and the constant of an attribute whose name was
      read at b, whether or not there were enough bytes. */
  ghost function PastAttr(b: seq<nat>): (r: seq<nat>)
    ensures |r| <= |b|
  {
    var b1 := b[Uleb(b, 0).used..];
    var form := Uleb(b1, 0);
    var b2 := b1[form.used..];
    if form.value % ENUM == IMPLICIT_CONST then b2[Sleb(b2, 0).used..] else b2
  }

  lemma SkipOne(b: seq<nat>)
    requires Uleb(b, 0).ok && Uleb(b, 0).value != 0
    ensures After(RefAttrs(b), 1, RefAttrs(PastAttr(b))) && |PastAttr(b)| < |b|
  {
    hide Uleb; hide Sleb; hide Signed;
    NothingLeft();
    var b1 := b[Uleb(b, 0).used..];
    var form := Uleb(b1, 0);
    if !form.ok {
      assert 0 % ENUM == 0;
      assert PastAttr(b) == [];
    } else {
      var b2 := b1[form.used..];
      if form.value % ENUM == IMPLICIT_CONST && !Sleb(b2, 0).ok {
        assert PastAttr(b) == [];
      }
    }
  }

  lemma AfterTrans<T>(r: Parsed<seq<T>>, n: nat, r': Parsed<seq<T>>, r'': Parsed<seq<T>>)
    requires After(r, n, r') && After(r', 1, r'')
    ensures After(r, n + 1, r'')
  {
  }

  lemma AfterNone<T>(r: Parsed<seq<T>>)
    ensures After(r, 0, r)
  {
  }

  /** The name that ends the list, and the form that goes with it. */
  lemma LastAttr(b: seq<nat>, r: Parsed<seq<Attr>>, n: nat)
    requires Uleb(b, 0).value == 0 && After(r, n, RefAttrs(b))
    ensures var name, form := Uleb(b, 0), Uleb(b[Uleb(b, 0).used..], 0);
            && (r.Parsed? <==> name.ok && form.ok)
            && (r.Parsed? ==> n == |r.value| && r.rest == b[name.used..][form.used..])
  {
    hide Uleb; hide Sleb; hide Signed;
  }

  /** Reads the form and the constant of an attribute whose name was read at b. */
  method SkipValue(buf: DwarfBuf, ghost b: seq<nat>, ghost name: nat)
    requires AtNumber(buf, b, name) && name != 0
    modifies buf
    ensures Sound(buf) && buf.Left() == PastAttr(b)
  {
    var form := ReadNumber(buf);
    hide Uleb; hide Sleb;
    if form % ENUM == IMPLICIT_CONST {
      var _ := buf.ReadSleb();
    }
  }

  /** Counts attribute specifications up to the name that ends the list; the form that goes
      with that name is still to be read. */
  method SkipAttrs(buf: DwarfBuf) returns (n: nat)
    requires Sound(buf)
    modifies buf
    ensures Sound(buf)
    ensures old(buf.underflow) ==> buf.underflow
    ensures var r, form := RefAttrs(old(buf.Left())), Uleb(buf.Left(), 0);
            && (r.Parsed? <==> !buf.underflow && form.ok)
            && (r.Parsed? ==> n == |r.value| && r.rest == buf.Left()[form.used..])
  {
    hide Uleb; hide Sleb; hide RefAttr; hide RefAttrs; hide PastAttr; hide After;
    ghost var r := RefAttrs(buf.Left());
    ghost var b := buf.Left();
    n := 0;
    var name := ReadNumber(buf);
    AfterNone(r);
    while name != 0
      invariant AtNumber(buf, b, name) && After(r, n, RefAttrs(b))
      invariant old(buf.underflow) ==> buf.underflow
      decreases |b|
    {
      SkipOne(b);
      AfterTrans(r, n, RefAttrs(b), RefAttrs(PastAttr(b)));
      n := n + 1;
      SkipValue(buf, b, name);
      b := buf.Left();
      name := ReadNumber(buf);
    }
    LastAttr(b, r, n);
  }

  /** An abbreviation whose code was read at b: its tag, its flag and its attributes. */
  lemma SkipBody(b: seq<nat>, b1: seq<nat>)
    requires Uleb(b, 0).ok && Uleb(b, 0).value != 0
    requires var r := RefBody(Uleb(b, 0).value, b[Uleb(b, 0).used..]);
             if r.Parsed? then b1 == r.rest else b1 == []
    ensures After(RefAbbrevs(b), 1, RefAbbrevs(b1)) && |b1| < |b|
  {
    hide Uleb; hide RefBody;
    NothingLeft();
  }

  /** Skips the tag, the flag and the attributes of one abbreviation. */
  method SkipAbbrev(buf: DwarfBuf, ghost code: nat)
    requires Sound(buf) && !buf.underflow
    modifies buf
    ensures Sound(buf)
    ensures var r := RefBody(code, old(buf.Left()));
            buf.underflow == !r.Parsed? && buf.Left() == if r.Parsed? then r.rest else []
  {
    hide Uleb; hide RefAttrs;
    NothingLeft();
    var _ := ReadNumber(buf);
    var _ := buf.ReadByte();
    var _ := SkipAttrs(buf);
    var _ := ReadNumber(buf);
  }

  lemma LastAbbrev(b: seq<nat>, r: Parsed<seq<Abbrev>>, n: nat)
    requires Uleb(b, 0).value == 0 && After(r, n, RefAbbrevs(b))
    ensures var code := Uleb(b, 0);
            (r.Parsed? <==> code.ok) && (r.Parsed? ==> n == |r.value| && r.rest == b[code.used..])
  {
    hide Uleb; hide RefBody;
  }

  /** The counting pass succeeds exactly when the section holds a whole table, and then it
      counts the abbreviations and ends where the table ends. */
  method CountAbbrevs(buf: DwarfBuf) returns (n: nat)
    requires Sound(buf) && !buf.underflow
    modifies buf
    ensures Sound(buf)
    ensures var r := RefAbbrevs(old(buf.Left()));
            buf.underflow == !r.Parsed? && (r.Parsed? ==> n == |r.value| && buf.Left() == r.rest)
  {
    hide Uleb; hide RefBody; hide RefAbbrev; hide RefAbbrevs; hide After;
    ghost var r := RefAbbrevs(buf.Left());
    ghost var b := buf.Left();
    n := 0;
    var code := ReadNumber(buf);
    AfterNone(r);
    while code != 0
      invariant AtNumber(buf, b, code) && After(r, n, RefAbbrevs(b))
      decreases |b|
    {
      n := n + 1;
      SkipAbbrev(buf, code);
      SkipBody(b, buf.Left());
      AfterTrans(r, n - 1, RefAbbrevs(b), RefAbbrevs(buf.Left()));
      b := buf.Left();
      code := ReadNumber(buf);
    }
    LastAbbrev(b, r, n);
  }

  // ----- the filling pass

  /** done is the part of r already stored, r' the rest of it. */
  ghost predicate Stored<T>(r: Parsed<seq<T>>, done: seq<T>, r': Parsed<seq<T>>) {
    r.Parsed? && r'.Parsed? && r.value == done + r'.value && r.rest == r'.rest
  }

  lemma StoreNext<T>(r: Parsed<seq<T>>, done: seq<T>, x: T, r': Parsed<seq<T>>, r'': Parsed<seq<T>>)
    requires Stored(r, done, r') && r''.Parsed? && r' == Parsed([x] + r''.value, r''.rest)
    ensures Stored(r, done + [x], r'') && |done| < |r.value|
  {
    assert done + ([x] + r''.value) == (done + [x]) + r''.value;
  }

  lemma StoreAll<T>(r: Parsed<seq<T>>, done: seq<T>, r': Parsed<seq<T>>)
    requires Stored(r, done, r') && r'.value == []
    ensures r == Parsed(done, r'.rest)
  {
    assert done + [] == done;
  }

  lemma StoreNone<T>(r: Parsed<seq<T>>)
    requires r.Parsed?
    ensures Stored(r, [], r)
  {
    assert [] + r.value == r.value;
  }

  /** One attribute of the filling pass: None at the pair that ends the list. */
  method ReadAttr(buf: DwarfBuf) returns (a: Option<Attr>)
    requires Sound(buf) && !buf.underflow && RefAttr(buf.Left()).Parsed?
    modifies buf
    ensures Sound(buf) && !buf.underflow
    ensures RefAttr(old(buf.Left())) == Parsed(a, buf.Left())
  {
    hide Uleb; hide Sleb; hide Signed;
    var name := ReadNumber(buf);
    var form := ReadNumber(buf);
    if name == 0 {
      return None;
    }
    var val := 0;
    if form % ENUM == IMPLICIT_CONST {
      val := buf.ReadSleb();
    }
    return Some(Attr(name % ENUM, form % ENUM, val));
  }

  lemma AttrsUnfold(b: seq<nat>)
    requires RefAttrs(b).Parsed?
    ensures RefAttr(b).Parsed?
    ensures RefAttr(b).value.None? ==> RefAttrs(b) == Parsed([], RefAttr(b).rest)
    ensures RefAttr(b).value.Some? ==>
              && RefAttrs(RefAttr(b).rest).Parsed? && |RefAttr(b).rest| < |b|
              && RefAttrs(b) == Parsed([RefAttr(b).value.value] + RefAttrs(RefAttr(b).rest).value,
                 RefAttrs(RefAttr(b).rest).rest)
  {
    hide RefAttr;
  }

  /** Stores as many attributes as were counted, each within the array. */
  method FillAttrs(buf: DwarfBuf, attrs: array<Attr>)
    requires Sound(buf) && !buf.underflow
    requires RefAttrs(buf.Left()).Parsed? && attrs.Length == |RefAttrs(buf.Left()).value|
    modifies buf, attrs
    ensures Sound(buf) && !buf.underflow
    ensures RefAttrs(old(buf.Left())) == Parsed(attrs[..], buf.Left())
  {
    hide RefAttr; hide RefAttrs; hide Stored;
    ghost var r := RefAttrs(buf.Left());
    var n := 0;
    StoreNone(r);
    assert attrs[..0] == [];
    while true
      invariant Sound(buf) && !buf.underflow && 0 <= n <= attrs.Length == |r.value|
      invariant RefAttrs(buf.Left()).Parsed? && Stored(r, attrs[..n], RefAttrs(buf.Left()))
      decreases |buf.Left()|
    {
      ghost var r' := RefAttrs(buf.Left());
      AttrsUnfold(buf.Left());
      var a := ReadAttr(buf);
      if a.None? {
        StoreAll(r, attrs[..n], r');
        assert attrs[..n] == attrs[..];
        return;
      }
      StoreNext(r, attrs[..n], a.value, r', RefAttrs(buf.Left()));
      attrs[n] := a.value;
      n := n + 1;
      assert attrs[..n] == attrs[..n - 1] + [a.value];
    }
  }

  lemma NoAttrs(b: seq<nat>)
    requires RefAttrs(b).Parsed? && RefAttrs(b).value == []
    ensures var name := Uleb(b, 0);
            var form := Uleb(b[name.used..], 0);
            name.ok && form.ok && RefAttrs(b).rest == b[name.used..][form.used..]
  {
    hide Uleb; hide Sleb;
  }

  /** The attributes of one abbreviation: counted on a copy of the buffer, then stored. */
  method ReadAttrs(buf: DwarfBuf) returns (attrs: seq<Attr>)
    requires Sound(buf) && !buf.underflow && RefAttrs(buf.Left()).Parsed?
    modifies buf
    ensures Sound(buf) && !buf.underflow
    ensures RefAttrs(old(buf.Left())) == Parsed(attrs, buf.Left())
  {
    hide Uleb; hide RefAttrs;
    var copy := new DwarfBuf(buf.data, buf.pos, buf.underflow);
    assert copy.Left() == buf.Left();
    var n := SkipAttrs(copy);
    if n == 0 {
      NoAttrs(buf.Left());
      var _ := ReadNumber(buf);
      var _ := ReadNumber(buf);
      return [];
    }
    var store := new Attr[n](_ => Attr(0, 0, 0));
    FillAttrs(buf, store);
    return store[..];
  }

  lemma BodyUnfold(code: nat, b: seq<nat>)
    requires RefBody(code, b).Parsed?
    ensures var tag := Uleb(b, 0);
            var b1 := b[tag.used..];
            && tag.ok && |b1| > 0 && RefAttrs(b1[1..]).Parsed?
            && RefBody(code, b) == Parsed(Some(Abbrev(code, tag.value % ENUM, b1[0], RefAttrs(b1[1..]).value)),
               RefAttrs(b1[1..]).rest)
  {
    hide Uleb; hide RefAttrs;
  }

  /** One abbreviation of the filling pass: None at the code that ends the table. */
  method ReadAbbrev(buf: DwarfBuf) returns (a: Option<Abbrev>)
    requires Sound(buf) && !buf.underflow && RefAbbrev(buf.Left()).Parsed?
    modifies buf
    ensures Sound(buf) && !buf.underflow
    ensures RefAbbrev(old(buf.Left())) == Parsed(a, buf.Left())
  {
    hide Uleb; hide RefAttrs; hide RefBody;
    var code := ReadNumber(buf);
    if code == 0 {
      return None;
    }
    BodyUnfold(code, buf.Left());
    var tag := ReadNumber(buf);
    var children := buf.ReadByte();
    var attrs := ReadAttrs(buf);
    return Some(Abbrev(code, tag % ENUM, children, attrs));
  }

  lemma AbbrevsUnfold(b: seq<nat>)
    requires RefAbbrevs(b).Parsed?
    ensures RefAbbrev(b).Parsed?
    ensures RefAbbrev(b).value.None? ==> RefAbbrevs(b) == Parsed([], RefAbbrev(b).rest)
    ensures RefAbbrev(b).value.Some? ==>
              && RefAbbrevs(RefAbbrev(b).rest).Parsed? && |RefAbbrev(b).rest| < |b|
              && RefAbbrevs(b) == Parsed([RefAbbrev(b).value.value] + RefAbbrevs(RefAbbrev(b).rest).value,
                 RefAbbrevs(RefAbbrev(b).rest).rest)
  {
    hide RefAbbrev;
  }

  /** The filling pass stores every abbreviation within the array that was sized by the
      counting pass, fills all of it, and ends where the counting pass ended. */
  method FillAbbrevs(buf: DwarfBuf, table: array<Abbrev>)
    requires Sound(buf) && !buf.underflow
    requires RefAbbrevs(buf.Left()).Parsed? && table.Length == |RefAbbrevs(buf.Left()).value|
    modifies buf, table
    ensures Sound(buf) && !buf.underflow
    ensures RefAbbrevs(old(buf.Left())) == Parsed(table[..], buf.Left())
  {
    hide RefAbbrev; hide RefAbbrevs; hide Stored;
    ghost var r := RefAbbrevs(buf.Left());
    var n := 0;
    StoreNone(r);
    assert table[..0] == [];
    while true
      invariant Sound(buf) && !buf.underflow && 0 <= n <= table.Length == |r.value|
      invariant RefAbbrevs(buf.Left()).Parsed? && Stored(r, table[..n], RefAbbrevs(buf.Left()))
      decreases |buf.Left()|
    {
      ghost var r' := RefAbbrevs(buf.Left());
      AbbrevsUnfold(buf.Left());
      var a := ReadAbbrev(buf);
      if a.None? {
        StoreAll(r, table[..n], r');
        assert table[..n] == table[..];
        return;
      }
      StoreNext(r, table[..n], a.value, r', RefAbbrevs(buf.Left()));
      table[n] := a.value;
      n := n + 1;
      assert table[..n] == table[..n - 1] + [a.value];
    }
  }

  // ----- reading, sorting and looking up

  function CompareCodes(a: Abbrev, b: Abbrev): int {
    if a.code < b.code then -1 else if a.code > b.code then 1 else 0
  }

  lemma CompareCodesPreorder()
    ensures Preorder<Abbrev>(CompareCodes)
  {
  }

  ghost predicate SortedByCode(t: seq<Abbrev>) {
    forall i, j :: 0 <= i < j < |t| ==> t[i].code <= t[j].code
  }

  lemma SortedCodes(t: seq<Abbrev>)
    requires Sorted(CompareCodes, t)
    ensures SortedByCode(t)
  {
    forall i, j | 0 <= i < j < |t| ensures t[i].code <= t[j].code {
      assert CompareCodes(t[i], t[j]) <= 0;
    }
  }

  /** The table of the section from offset on: refused when the offset is outside or the
      table is cut short, otherwise the abbreviations written there, sorted by code. */
  method ReadAbbrevs(section: seq<nat>, offset: nat) returns (r: Option<seq<Abbrev>>)
    ensures r.Some? <==> offset < |section| && RefAbbrevs(section[offset..]).Parsed?
    ensures r.Some? ==> SortedByCode(r.value) && multiset(r.value) == multiset(RefAbbrevs(section[offset..]).value)
  {
    if offset >= |section| {
      return None;
    }
    hide RefAbbrevs; hide Sorted; hide SortedByCode;
    var buf := new DwarfBuf(section, offset, false);
    var count := new DwarfBuf(section, offset, false);
    assert buf.Left() == count.Left() == section[offset..];
    var n := CountAbbrevs(count);
    if count.underflow {
      return None;
    }
    var table := new Abbrev[n](_ => Abbrev(0, 0, 0, []));
    if n > 0 {
      FillAbbrevs(buf, table);
    }
    ghost var before := table[..];
    assert before == table[0..n];
    CompareCodesPreorder();
    var depth := Sort(table, 0, n, CompareCodes);
    assert table[..] == table[0..n];
    SortedCodes(table[..]);
    return Some(table[..]);
  }

  ghost predicate Distinct(t: seq<Abbrev>) {
    forall i, j :: 0 <= i < j < |t| ==> t[i].code != t[j].code
  }

  method SearchCode(t: seq<Abbrev>, code: nat) returns (r: Option<nat>)
    requires SortedByCode(t)
    ensures r.Some? ==> r.value < |t| && t[r.value].code == code
    ensures r.None? ==> forall i :: 0 <= i < |t| ==> t[i].code != code
  {
    var l, u := 0, |t|;
    while l < u
      invariant 0 <= l <= u <= |t|
      invariant forall i :: 0 <= i < l || u <= i < |t| ==> t[i].code != code
    {
      var idx := (l + u) / 2;
      if code < t[idx].code {
        u := idx;
      } else if code > t[idx].code {
        l := idx + 1;
      } else {
        return Some(idx);
      }
    }
    return None;
  }

  /** Tries the slot a compiler that numbers its codes from one would use, and searches
      otherwise. The answer is an abbreviation with the code if there is one; with distinct
      codes it is the only one, so the shortcut and the search agree. */
  method LookupAbbrev(t: seq<Abbrev>, code: nat) returns (r: Option<nat>)
    requires SortedByCode(t) && code < WORD && |t| < WORD
    ensures r.Some? <==> exists i :: 0 <= i < |t| && t[i].code == code
    ensures r.Some? ==> r.value < |t| && t[r.value].code == code
    ensures Distinct(t) ==> forall i :: 0 <= i < |t| && t[i].code == code ==> r == Some(i)
  {
    var slot := if code == 0 then WORD - 1 else code - 1;
    if slot < |t| && t[slot].code == code {
      return Some(slot);
    }
    r := SearchCode(t, code);
  }

  /** Reading a canonical table and looking up any of its codes gives the abbreviation that
      was written with that code, however the section was numbered. */
  method ReadAndLookup(section: seq<nat>, offset: nat, ghost table: seq<Abbrev>, ghost rest: seq<nat>, code: nat)
    returns (r: Option<Abbrev>)
    requires offset < |section| < WORD && section[offset..] == EncodeAbbrevs(table) + rest
    requires (forall x :: x in table ==> WellFormed(x)) && Distinct(table) && code < WORD
    ensures r.Some? <==> exists i :: 0 <= i < |table| && table[i].code == code
    ensures forall i :: 0 <= i < |table| && table[i].code == code ==> r == Some(table[i])
  {
    hide *;
    TableRoundTrip(table, rest);
    var t := ReadAbbrevs(section, offset);
    Reordered(table, t.value);
    ShorterThanCode(table, rest);
    var k := LookupAbbrev(t.value, code);
    r := if k.Some? then Some(t.value[k.value]) else None;
    SameAnswer(table, t.value, code, r);
  }

  lemma SameAnswer(s: seq<Abbrev>, t: seq<Abbrev>, code: nat, r: Option<Abbrev>)
    requires (forall x :: x in s <==> x in t) && Distinct(s)
    requires r.Some? ==> r.value in t && r.value.code == code
    requires r.None? ==> forall i :: 0 <= i < |t| ==> t[i].code != code
    ensures r.Some? <==> exists i :: 0 <= i < |s| && s[i].code == code
    ensures forall i :: 0 <= i < |s| && s[i].code == code ==> r == Some(s[i])
  {
    if r.Some? {
      var k :| 0 <= k < |s| && s[k] == r.value;
      forall i | 0 <= i < |s| && s[i].code == code ensures i == k { }
    } else {
      forall i | 0 <= i < |s| ensures s[i].code != code {
        assert s[i] in t;
      }
    }
  }

  lemma Reordered(s: seq<Abbrev>, t: seq<Abbrev>)
    requires multiset(s) == multiset(t)
    ensures |s| == |t|
    ensures forall x :: x in s <==> x in t
  {
    assert |multiset(s)| == |s| && |multiset(t)| == |t|;
    forall x ensures x in s <==> x in t {
      assert x in multiset(s) <==> x in multiset(t);
    }
  }

  lemma {:induction false} ShorterThanCode(s: seq<Abbrev>, rest: seq<nat>)
    ensures |s| < |EncodeAbbrevs(s) + rest|
  {
    if s != [] {
      ShorterThanCode(s[1..], rest);
    }
  }
}
