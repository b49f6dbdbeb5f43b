/**
 The grammar of JSON text: concrete syntax with its white space, what it stands for, and the proof
 that the parser accepts exactly the texts of the grammar, as what they stand for.
 */
module JsonGrammar {
  import opened Wrappers
  import opened JsonText
  import opened JsonStrings

  /** White space of section 2 of RFC 8259, by its codes. */
  predicate White(s: string) {
    forall i :: 0 <= i < |s| ==> s[i] as int in {0x20, 0x09, 0x0a, 0x0d}
  }

  /** The characters of numbers. */
  const NUMBER_CHARS: string := "0123456789+-.eE"
  const NUMBER_STARTS: string := "0123456789-"

  predicate NumberText(t: string) {
    |t| > 0 && t[0] in NUMBER_STARTS && forall i :: 0 <= i < |t| ==> t[i] in NUMBER_CHARS
  }

  predicate EndsNumber(s: string) {
    |s| == 0 || s[0] !in NUMBER_CHARS
  }

  /** Concrete syntax.  blank is the space in an empty array or object. */
  datatype Syntax<+N> =
    | Word(w: string)
    | Num(t: string, n: N)
    | Quoted(ps: seq<Piece>, v: string)
    | List(items: seq<Item<N>>, blank: string)
    | Dict(fields: seq<Field<N>>, blank: string)

  /** A value with the space around it. */
  datatype Item<+N> = Item(before: string, value: Syntax<N>, after: string)

  /** A field; space may come before the key, before the colon, and around the value. */
  datatype Field<+N> = Field(space: string, ps: seq<Piece>, key: string, colon: string, item: Item<N>)

  ghost predicate SyntaxOk<N>(c: Codec<N>, x: Syntax<N>)
    decreases x, 1
  {
    match x
    case Word(w) => w in {"null", "true", "false"}
    case Num(t, n) => NumberText(t) && c.read(t) == Some(n)
    case Quoted(ps, v) => PiecesOk(ps) && Spells(ps, v)
    case List(items, blank) => White(blank) && ItemsOk(c, items)
    case Dict(fields, blank) => White(blank) && FieldsOk(c, fields)
  }

  ghost predicate ItemOk<N>(c: Codec<N>, i: Item<N>)
    decreases i, 2
  {
    White(i.before) && White(i.after) && SyntaxOk(c, i.value)
  }

  ghost predicate ItemsOk<N>(c: Codec<N>, items: seq<Item<N>>)
    decreases items, 0
  {
    items == [] || (ItemOk(c, items[0]) && ItemsOk(c, items[1..]))
  }

  ghost predicate FieldOk<N>(c: Codec<N>, f: Field<N>)
    decreases f, 3
  {
    White(f.space) && White(f.colon) && PiecesOk(f.ps) && Spells(f.ps, f.key) && ItemOk(c, f.item)
  }

  ghost predicate FieldsOk<N>(c: Codec<N>, fields: seq<Field<N>>)
    decreases fields, 0
  {
    fields == [] || (FieldOk(c, fields[0]) && FieldsOk(c, fields[1..]))
  }

  // ----- the text

  function SyntaxText<N>(x: Syntax<N>): string
    decreases x, 1
  {
    match x
    case Word(w) => w
    case Num(t, _) => t
    case Quoted(ps, _) => "\"" + PiecesText(ps) + "\""
    case List(items, blank) => "[" + (if items == [] then blank else ItemsText(items)) + "]"
    case Dict(fields, blank) => "{" + (if fields == [] then blank else FieldsText(fields)) + "}"
  }

  function ItemText<N>(i: Item<N>): string
    decreases i, 2
  {
    i.before + SyntaxText(i.value) + i.after
  }

  /** Separated by commas. */
  function ItemsText<N>(items: seq<Item<N>>): string
    decreases items, 0
  {
    if items == [] then ""
    else if |items| == 1 then ItemText(items[0])
    else ItemText(items[0]) + "," + ItemsText(items[1..])
  }

  function FieldText<N>(f: Field<N>): string
    decreases f, 3
  {
    f.space + "\"" + PiecesText(f.ps) + "\"" + f.colon + ":" + ItemText(f.item)
  }

  function FieldsText<N>(fields: seq<Field<N>>): string
    decreases fields, 0
  {
    if fields == [] then ""
    else if |fields| == 1 then FieldText(fields[0])
    else FieldText(fields[0]) + "," + FieldsText(fields[1..])
  }

  // ----- the value

  ghost function Meaning<N>(x: Syntax<N>): Value<N>
    decreases x, 1
  {
    match x
    case Word(w) => if w == "null" then Null else Bool(w == "true")
    case Num(_, n) => Number(n)
    case Quoted(_, v) => Str(v)
    case List(items, _) => Array(ItemValues(items))
    case Dict(fields, _) => Object(FieldValues(map[], fields))
  }

  ghost function ItemValues<N>(items: seq<Item<N>>): seq<Value<N>>
    decreases items, 0
  {
    if items == [] then [] else [ItemValue(items[0])] + ItemValues(items[1..])
  }

  ghost function ItemValue<N>(i: Item<N>): Value<N>
    decreases i, 2
  {
    Meaning(i.value)
  }

  ghost function ValueOf<N>(f: Field<N>): Value<N>
    decreases f, 3
  {
    ItemValue(f.item)
  }

  /** The fields put into a map in the order of the text. */
  ghost function FieldValues<N>(m: map<string, Value<N>>, fields: seq<Field<N>>): map<string, Value<N>>
    decreases fields, 0
  {
    if fields == [] then m else FieldValues(m[fields[0].key := ValueOf(fields[0])], fields[1..])
  }

  /** Of fields with one key the last one counts, and there are no other keys. */
  lemma {:induction false} LastFieldCounts<N>(m: map<string, Value<N>>, fields: seq<Field<N>>, key: string)
    ensures key in FieldValues(m, fields) <==> key in m || exists i :: 0 <= i < |fields| && fields[i].key == key
    ensures (forall i :: 0 <= i < |fields| ==> fields[i].key != key) && key in m ==>
              FieldValues(m, fields)[key] == m[key]
    ensures forall i :: 0 <= i < |fields| && fields[i].key == key
                        && (forall j :: i < j < |fields| ==> fields[j].key != key) ==>
              key in FieldValues(m, fields) && FieldValues(m, fields)[key] == ValueOf(fields[i])
    decreases |fields|
  {
    hide ValueOf;
    if fields != [] {
      var rest, m' := fields[1..], m[fields[0].key := ValueOf(fields[0])];
      LastFieldCounts(m', rest, key);
      if i :| 0 <= i < |fields| && fields[i].key == key && i > 0 {
        assert rest[i - 1].key == key;
      }
      forall i | 0 <= i < |fields| && fields[i].key == key && forall j :: i < j < |fields| ==> fields[j].key != key
        ensures key in FieldValues(m, fields) && FieldValues(m, fields)[key] == ValueOf(fields[i])
      {
        if i > 0 {
          assert rest[i - 1] == fields[i];
          forall j | i - 1 < j < |rest| ensures rest[j].key != key { assert rest[j] == fields[j + 1]; }
        } else {
          forall j | 0 <= j < |rest| ensures rest[j].key != key { assert rest[j] == fields[j + 1]; }
        }
      }
    }
  }

  // ----- space and numbers

  lemma SpaceChars(x: char)
    ensures IsSpace(x) <==> x as int in {0x20, 0x09, 0x0a, 0x0d}
  {
  }

  lemma NumberChars(x: char)
    ensures IsNumeric(x) <==> x in NUMBER_CHARS
    ensures StartsNumber(x) <==> x in NUMBER_STARTS
  {
    assert NUMBER_CHARS == "0123456789" + "+-.eE" && NUMBER_STARTS == "0123456789" + "-";
    Digit(x);
  }

  lemma Digit(x: char)
    ensures '0' <= x <= '9' <==> x in "0123456789"
  {
    if '0' <= x <= '9' {
      assert x == "0123456789"[x as int - '0' as int];
    }
  }

  lemma {:induction false} SkipWhite(w: string, s: string)
    requires White(w)
    ensures SkipSpace(w + s) == SkipSpace(s)
    decreases |w|
  {
    if w == "" {
      assert w + s == s;
    } else {
      SpaceChars(w[0]);
      assert (w + s)[1..] == w[1..] + s;
      SkipWhite(w[1..], s);
    }
  }

  lemma {:induction false} WhiteBefore(s: string) returns (w: string)
    ensures White(w) && s == w + SkipSpace(s)
    decreases |s|
  {
    w := "";
    if s != "" && IsSpace(s[0]) {
      SpaceChars(s[0]);
      var v := WhiteBefore(s[1..]);
      w := [s[0]] + v;
      assert s == [s[0]] + s[1..];
    }
  }

  lemma NotWhite(s: string)
    requires |s| > 0 && s[0] as int !in {0x20, 0x09, 0x0a, 0x0d}
    ensures SkipSpace(s) == s
  {
    SpaceChars(s[0]);
  }

  /** Space does not change what is read after it. */
  lemma ValueSkips<N>(c: Codec<N>, w: string, s: string)
    requires White(w)
    ensures ParseValue(c, w + s) == ParseValue(c, s)
  {
    hide SkipSpace; hide ParseString; hide ParseArray; hide ParseObject; hide ParseNumber; hide Literal;
    SkipWhite(w, s);
  }

  lemma ExpectSkips(w: string, s: string, x: char)
    requires White(w)
    ensures Expect(w + s, x) == Expect(s, x)
  {
    hide SkipSpace;
    SkipWhite(w, s);
  }

  lemma ExpectFirst(w: string, s: string, x: char, y: char)
    requires White(w) && y as int !in {0x20, 0x09, 0x0a, 0x0d}
    ensures Expect(w + ([y] + s), x) == if x == y then Some(s) else None
  {
    ExpectSkips(w, [y] + s, x);
    NotWhite([y] + s);
    assert ([y] + s)[1..] == s;
  }

  /** A number is read to its end. */
  lemma {:induction false} TokenRead(t: string, s: string)
    requires (forall i :: 0 <= i < |t| ==> t[i] in NUMBER_CHARS) && EndsNumber(s)
    ensures Token(t + s) == t
    decreases |t|
  {
    hide IsNumeric; hide NUMBER_CHARS;
    if t == "" {
      assert t + s == s;
      if s != "" { NumberChars(s[0]); }
    } else {
      NumberChars(t[0]);
      assert (t + s)[1..] == t[1..] + s;
      TokenRead(t[1..], s);
    }
  }

  /** What is read as a token is the longest number. */
  lemma {:induction false} TokenText(s: string)
    ensures Token(s) <= s && EndsNumber(s[|Token(s)|..])
    ensures forall i :: 0 <= i < |Token(s)| ==> Token(s)[i] in NUMBER_CHARS
    decreases |s|
  {
    hide IsNumeric; hide NUMBER_CHARS;
    if s != "" {
      NumberChars(s[0]);
      if IsNumeric(s[0]) {
        TokenText(s[1..]);
        assert s[1..][|Token(s[1..])|..] == s[|Token(s)|..];
      }
    }
  }

  // ----- every text of the grammar is read

  /** Only a number cares for what follows. */
  ghost predicate Follows<N>(x: Syntax<N>, s: string) {
    x.Num? ==> EndsNumber(s)
  }

  /** The first character of a value. */
  lemma FirstOf<N>(c: Codec<N>, x: Syntax<N>)
    requires SyntaxOk(c, x)
    ensures |SyntaxText(x)| > 0
    ensures SyntaxText(x)[0] as int !in {0x20, 0x09, 0x0a, 0x0d} && SyntaxText(x)[0] !in {']', '}', ','}
  {
    hide ItemsText; hide FieldsText; hide PiecesText; hide NUMBER_CHARS; hide NUMBER_STARTS; hide ItemsOk; hide FieldsOk;
    hide PiecesOk; hide Spells;
    if x.Num? {
      StartsNoWord(x.t[0]);
    }
  }

  lemma WordRead<N>(c: Codec<N>, w: string, s: string)
    requires w in {"null", "true", "false"}
    ensures ParseValue(c, w + s) == Ok(Meaning(Word(w)), s)
  {
    hide ParseString; hide ParseArray; hide ParseObject; hide ParseNumber;
    NotWhite(w + s);
    var t := (w + s)[1..];
    assert t == w[1..] + s;
    assert t[|w| - 1..] == s;
    assert w[1..] <= t;
  }

  lemma NumRead<N>(c: Codec<N>, t: string, n: N, s: string)
    requires NumberText(t) && c.read(t) == Some(n) && EndsNumber(s)
    ensures ParseValue(c, t + s) == Ok(Number(n), s)
  {
    hide ParseString; hide ParseArray; hide ParseObject; hide Token; hide NUMBER_CHARS; hide StartsNumber;
    NumberChars(t[0]);
    FirstOf(c, Num(t, n));
    NotWhite(t + s);
    TokenRead(t, s);
    assert (t + s)[|t|..] == s;
    StartsNoWord(t[0]);
  }

  lemma StartsNoWord(x: char)
    requires x in NUMBER_STARTS
    ensures x !in {'n', 'f', 't', '\"', '[', '{', ']', '}', ','} && x as int !in {0x20, 0x09, 0x0a, 0x0d}
  {
  }

  lemma QuotedRead<N>(c: Codec<N>, ps: seq<Piece>, v: string, s: string)
    requires PiecesOk(ps) && Spells(ps, v)
    ensures ParseValue(c, "\"" + PiecesText(ps) + "\"" + s) == Ok(Str(v), s)
  {
    hide ParseString; hide ParseArray; hide ParseObject; hide ParseNumber; hide PiecesText; hide Spells;
    var t := "\"" + PiecesText(ps) + "\"" + s;
    NotWhite(t);
    assert t[1..] == PiecesText(ps) + "\"" + s;
    PiecesRead(ps, v, s, "");
    assert "" + v == v;
  }

  lemma Brackets<N>(c: Codec<N>, body: string)
    ensures ParseValue(c, "[" + body) == ParseArray(c, body)
    ensures ParseValue(c, "{" + body) == ParseObject(c, body)
  {
    hide ParseString; hide ParseArray; hide ParseObject; hide ParseNumber; hide Literal;
    NotWhite("[" + body);
    NotWhite("{" + body);
    assert ("[" + body)[1..] == body && ("{" + body)[1..] == body;
  }

  /** What may come after a value in a list. */
  ghost predicate Separator(s: string) {
    |s| > 0 && s[0] in {',', ']', '}'}
  }

  lemma WhiteEnds(w: string, s: string)
    requires White(w) && Separator(s)
    ensures EndsNumber(w + s)
  {
  }

  lemma ItemRead<N>(c: Codec<N>, i: Item<N>, s: string)
    requires ItemOk(c, i) && Separator(s)
    ensures ParseValue(c, ItemText(i) + s) == Ok(ItemValue(i), i.after + s)
    decreases i, 2
  {
    hide ParseValue; hide SyntaxText; hide Meaning; hide SyntaxOk;
    var t := SyntaxText(i.value) + (i.after + s);
    assert ItemText(i) + s == i.before + t;
    ValueSkips(c, i.before, t);
    WhiteEnds(i.after, s);
    SyntaxRead(c, i.value, i.after + s);
  }

  lemma Commas(a: string, b: string, end: string)
    ensures a + "," + b + end == a + ("," + (b + end))
  {
  }

  lemma OneItem<N>(items: seq<Item<N>>, s: string)
    requires items != []
    ensures |items| == 1 ==> ItemsText(items) + ("]" + s) == ItemText(items[0]) + ("]" + s)
    ensures |items| > 1 ==> ItemsText(items) + ("]" + s) == ItemText(items[0]) + ("," + (ItemsText(items[1..]) + ("]" + s)))
  {
    hide ItemText;
    Commas(ItemText(items[0]), ItemsText(items[1..]), "]" + s);
  }

  lemma ItemsRead<N>(c: Codec<N>, items: seq<Item<N>>, acc: seq<Value<N>>, s: string)
    requires items != [] && ItemsOk(c, items)
    ensures ParseItems(c, ItemsText(items) + ("]" + s), acc) == Ok(Array(acc + ItemValues(items)), s)
    decreases items, 0
  {
    hide ParseValue; hide ItemText; hide ItemValue; hide ItemOk; hide Expect; hide ItemsText;
    OneItem(items, s);
    var i, rest := items[0], items[1..];
    AfterWhite(c, i);
    if rest == [] {
      ItemRead(c, i, "]" + s);
      ExpectFirst(i.after, s, ',', ']');
      ExpectFirst(i.after, s, ']', ']');
      assert ItemValues(items) == [ItemValue(i)];
    } else {
      var next := ItemsText(rest) + ("]" + s);
      ItemRead(c, i, "," + next);
      ExpectFirst(i.after, next, ',', ',');
      ItemsRead(c, rest, acc + [ItemValue(i)], s);
      assert acc + [ItemValue(i)] + ItemValues(rest) == acc + ItemValues(items);
    }
  }

  lemma AfterWhite<N>(c: Codec<N>, i: Item<N>)
    requires ItemOk(c, i)
    ensures White(i.before) && White(i.after) && SyntaxOk(c, i.value)
  {
  }

  lemma FirstItem<N>(c: Codec<N>, items: seq<Item<N>>, s: string)
    requires items != [] && ItemsOk(c, items)
    ensures Expect(ItemsText(items) + s, ']') == None
  {
    var i := items[0];
    var t := SyntaxText(i.value);
    var tail := if |items| == 1 then "" else "," + ItemsText(items[1..]);
    assert ItemsText(items) == i.before + t + i.after + tail;
    hide Expect; hide SyntaxText; hide SyntaxOk; hide ItemsText;
    FirstOf(c, i.value);
    StartsAt(i.before, t, i.after, tail, s);
    ExpectFirst(i.before, t[1..] + i.after + tail + s, ']', t[0]);
  }

  lemma StartsAt(before: string, t: string, after: string, tail: string, s: string)
    requires |t| > 0
    ensures before + t + after + tail + s == before + ([t[0]] + (t[1..] + after + tail + s))
  {
    assert t == [t[0]] + t[1..];
  }

  lemma ListRead<N>(c: Codec<N>, items: seq<Item<N>>, blank: string, s: string)
    requires White(blank) && ItemsOk(c, items)
    ensures ParseValue(c, SyntaxText(List(items, blank)) + s) == Ok(Array(ItemValues(items)), s)
    decreases items, 1
  {
    hide ParseValue; hide ItemsText; hide ParseItems; hide Expect; hide ItemsOk;
    if items == [] {
      assert SyntaxText(List(items, blank)) + s == "[" + (blank + ("]" + s));
      Brackets(c, blank + ("]" + s));
      ExpectFirst(blank, s, ']', ']');
    } else {
      var body := ItemsText(items) + ("]" + s);
      assert SyntaxText(List(items, blank)) + s == "[" + body;
      Brackets(c, body);
      FirstItem(c, items, "]" + s);
      ItemsRead(c, items, [], s);
      assert [] + ItemValues(items) == ItemValues(items);
    }
  }

  lemma KeyRead<N>(c: Codec<N>, f: Field<N>, s: string)
    requires FieldOk(c, f)
    ensures ParseKey(FieldText(f) + s) == Ok(f.key, ItemText(f.item) + s)
  {
    hide ParseString; hide PiecesText; hide Spells; hide Expect; hide ItemText; hide ItemOk;
    var tail := ItemText(f.item) + s;
    var mid := f.colon + ([':'] + tail);
    assert FieldText(f) + s == f.space + (['\"'] + (PiecesText(f.ps) + "\"" + mid));
    ExpectFirst(f.space, PiecesText(f.ps) + "\"" + mid, '\"', '\"');
    PiecesRead(f.ps, f.key, mid, "");
    assert "" + f.key == f.key;
    ExpectFirst(f.colon, tail, ':', ':');
  }

  lemma OneField<N>(fields: seq<Field<N>>, s: string)
    requires fields != []
    ensures |fields| == 1 ==> FieldsText(fields) + ("}" + s) == FieldText(fields[0]) + ("}" + s)
    ensures |fields| > 1 ==>
              FieldsText(fields) + ("}" + s) == FieldText(fields[0]) + ("," + (FieldsText(fields[1..]) + ("}" + s)))
  {
    hide FieldText;
    Commas(FieldText(fields[0]), FieldsText(fields[1..]), "}" + s);
  }

  lemma FieldsRead<N>(c: Codec<N>, fields: seq<Field<N>>, acc: map<string, Value<N>>, s: string)
    requires fields != [] && FieldsOk(c, fields)
    ensures ParseFields(c, FieldsText(fields) + ("}" + s), acc) == Ok(Object(FieldValues(acc, fields)), s)
    decreases fields, 0
  {
    hide ParseValue; hide ParseKey; hide ItemText; hide ItemValue; hide ItemOk; hide Expect; hide FieldText; hide FieldsText;
    OneField(fields, s);
    var f, rest := fields[0], fields[1..];
    FieldParts(c, f);
    AfterWhite(c, f.item);
    var next := FieldsText(rest) + ("}" + s);
    var tail := if rest == [] then "}" + s else "," + next;
    KeyRead(c, f, tail);
    ItemRead(c, f.item, tail);
    if rest == [] {
      ExpectFirst(f.item.after, s, ',', '}');
      ExpectFirst(f.item.after, s, '}', '}');
      assert FieldValues(acc, fields) == FieldValues(acc[f.key := ValueOf(f)], []);
    } else {
      ExpectFirst(f.item.after, next, ',', ',');
      FieldsRead(c, rest, acc[f.key := ValueOf(f)], s);
    }
  }

  lemma FieldParts<N>(c: Codec<N>, f: Field<N>)
    requires FieldOk(c, f)
    ensures ItemOk(c, f.item) && ValueOf(f) == ItemValue(f.item) && f.item < f
  {
  }

  lemma FirstField<N>(c: Codec<N>, fields: seq<Field<N>>, s: string)
    requires fields != [] && FieldsOk(c, fields)
    ensures Expect(FieldsText(fields) + s, '}') == None
  {
    hide Expect; hide ItemText; hide PiecesText; hide Spells; hide ItemOk; hide FieldText;
    var f := fields[0];
    var more := if |fields| == 1 then "" else "," + FieldsText(fields[1..]);
    assert FieldsText(fields) == FieldText(f) + more;
    hide FieldsText;
    var tail := KeyFirst(f, more, s);
    ExpectFirst(f.space, tail, '}', '\"');
  }

  lemma KeyFirst<N>(f: Field<N>, more: string, s: string) returns (tail: string)
    ensures FieldText(f) + more + s == f.space + (['\"'] + tail)
  {
    hide ItemText; hide PiecesText;
    tail := PiecesText(f.ps) + "\"" + f.colon + ":" + ItemText(f.item) + more + s;
    KeyText(f.space, PiecesText(f.ps), f.colon, ItemText(f.item) + more + s);
    assert FieldText(f) + more + s ==
           f.space + "\"" + PiecesText(f.ps) + "\"" + f.colon + ":" + (ItemText(f.item) + more + s);
    TailIs(PiecesText(f.ps), f.colon, ItemText(f.item) + more + s);
    assert tail == PiecesText(f.ps) + "\"" + f.colon + ":" + (ItemText(f.item) + more + s);
  }

  lemma TailIs(t: string, colon: string, s: string)
    ensures t + "\"" + (colon + ([':'] + s)) == t + "\"" + colon + ":" + s
  {
  }

  lemma DictRead<N>(c: Codec<N>, fields: seq<Field<N>>, blank: string, s: string)
    requires White(blank) && FieldsOk(c, fields)
    ensures ParseValue(c, SyntaxText(Dict(fields, blank)) + s) == Ok(Object(FieldValues(map[], fields)), s)
    decreases fields, 1
  {
    hide ParseValue; hide FieldsText; hide ParseFields; hide Expect; hide FieldsOk;
    if fields == [] {
      assert SyntaxText(Dict(fields, blank)) + s == "{" + (blank + ("}" + s));
      Brackets(c, blank + ("}" + s));
      ExpectFirst(blank, s, '}', '}');
    } else {
      var body := FieldsText(fields) + ("}" + s);
      assert SyntaxText(Dict(fields, blank)) + s == "{" + body;
      Brackets(c, body);
      FirstField(c, fields, "}" + s);
      FieldsRead(c, fields, map[], s);
    }
  }

  /** Every text of the grammar is read as what it stands for, up to its end. */
  lemma SyntaxRead<N>(c: Codec<N>, x: Syntax<N>, s: string)
    requires SyntaxOk(c, x) && Follows(x, s)
    ensures ParseValue(c, SyntaxText(x) + s) == Ok(Meaning(x), s)
    decreases x, 1
  {
    hide ParseValue;
    match x
    case Word(w) => WordRead(c, w, s);
    case Num(t, n) => NumRead(c, t, n, s);
    case Quoted(ps, v) => QuotedRead(c, ps, v, s);
    case List(items, blank) => ListRead(c, items, blank, s);
    case Dict(fields, blank) => DictRead(c, fields, blank, s);
  }

  // ----- and no other text is

  lemma ExpectHas(s: string, x: char) returns (w: string)
    requires Expect(s, x).Some?
    ensures White(w) && s == w + ([x] + Expect(s, x).value)
  {
    hide SkipSpace;
    w := WhiteBefore(s);
    var t := SkipSpace(s);
    assert t == [t[0]] + t[1..];
  }

  /** The cases of a value, by its first character. */
  lemma ValueStarts<N>(c: Codec<N>, t: string)
    requires SkipSpace(t) == t && ParseValue(c, t).Ok?
    ensures |t| > 0
    ensures t[0] in {'n', 'f', 't', '\"', '[', '{'} || StartsNumber(t[0])
    ensures t[0] == '[' ==> ParseArray(c, t[1..]) == ParseValue(c, t)
    ensures t[0] == '{' ==> ParseObject(c, t[1..]) == ParseValue(c, t)
  {
    hide SkipSpace; hide ParseString; hide ParseArray; hide ParseObject; hide ParseNumber; hide Literal;
  }

  lemma HasWord<N>(c: Codec<N>, t: string) returns (x: Syntax<N>)
    requires SkipSpace(t) == t && ParseValue(c, t).Ok? && t[0] in {'n', 'f', 't'}
    ensures SyntaxOk(c, x) && t == SyntaxText(x) + ParseValue(c, t).rest && Meaning(x) == ParseValue(c, t).value
    ensures !x.Num?
  {
    hide SkipSpace; hide ParseString; hide ParseArray; hide ParseObject; hide ParseNumber;
    var w := if t[0] == 'n' then "null" else if t[0] == 'f' then "false" else "true";
    x := Word(w);
    assert w == [t[0]] + w[1..];
    assert w[1..] <= t[1..];
    assert t[1..] == w[1..] + t[1..][|w| - 1..];
    assert t == [t[0]] + t[1..];
  }

  lemma HasNumber<N>(c: Codec<N>, t: string) returns (x: Syntax<N>)
    requires SkipSpace(t) == t && ParseValue(c, t).Ok? && StartsNumber(t[0])
    ensures SyntaxOk(c, x) && t == SyntaxText(x) + ParseValue(c, t).rest && Meaning(x) == ParseValue(c, t).value
    ensures Follows(x, ParseValue(c, t).rest)
  {
    hide SkipSpace; hide ParseString; hide ParseArray; hide ParseObject; hide Token; hide NUMBER_CHARS;
    hide NUMBER_STARTS; hide IsNumeric;
    var n := Token(t);
    TokenText(t);
    NumberChars(t[0]);
    TokenNotEmpty(t);
    assert t == n + t[|n|..];
    x := Num(n, c.read(n).value);
  }

  lemma TokenNotEmpty(t: string)
    requires |t| > 0 && StartsNumber(t[0])
    ensures |Token(t)| > 0 && Token(t)[0] == t[0]
  {
  }

  lemma HasString<N>(c: Codec<N>, t: string) returns (x: Syntax<N>)
    requires SkipSpace(t) == t && ParseValue(c, t).Ok? && t[0] == '\"'
    ensures SyntaxOk(c, x) && t == SyntaxText(x) + ParseValue(c, t).rest && Meaning(x) == ParseValue(c, t).value
    ensures !x.Num?
  {
    hide SkipSpace; hide ParseString; hide ParseArray; hide ParseObject; hide ParseNumber; hide PiecesText; hide Spells;
    hide PiecesOk;
    var ps, v := StringHasPieces(t[1..], "");
    assert "" + v == v;
    x := Quoted(ps, v);
    assert t == "\"" + t[1..];
  }

  /** A text that is read is space and a text of the grammar, and is read as what that stands for. */
  lemma HasSyntax<N>(c: Codec<N>, s: string) returns (w: string, x: Syntax<N>)
    requires ParseValue(c, s).Ok?
    ensures White(w) && SyntaxOk(c, x) && s == w + SyntaxText(x) + ParseValue(c, s).rest
    ensures Meaning(x) == ParseValue(c, s).value && Follows(x, ParseValue(c, s).rest)
    decreases |s|, 2, 0
  {
    hide ParseValue; hide SyntaxText; hide SyntaxOk; hide Meaning; hide StartsNumber; hide ParseArray; hide ParseObject;
    w := WhiteBefore(s);
    var t := SkipSpace(s);
    ValueSkips(c, w, t);
    SkippedTwice(w, s);
    ValueStarts(c, t);
    if t[0] in {'n', 'f', 't'} {
      x := HasWord(c, t);
    } else if t[0] == '\"' {
      x := HasString(c, t);
    } else if t[0] == '[' {
      assert t == "[" + t[1..];
      x := HasList(c, t[1..]);
    } else if t[0] == '{' {
      assert t == "{" + t[1..];
      x := HasDict(c, t[1..]);
    } else {
      x := HasNumber(c, t);
    }
    assert w + SyntaxText(x) + ParseValue(c, s).rest == w + (SyntaxText(x) + ParseValue(c, s).rest);
  }

  lemma SkippedTwice(w: string, s: string)
    requires White(w) && s == w + SkipSpace(s)
    ensures SkipSpace(SkipSpace(s)) == SkipSpace(s)
  {
    hide SkipSpace;
    SkipWhite(w, SkipSpace(s));
  }

  lemma HasList<N>(c: Codec<N>, s: string) returns (x: Syntax<N>)
    requires ParseArray(c, s).Ok?
    ensures SyntaxOk(c, x) && "[" + s == SyntaxText(x) + ParseArray(c, s).rest && !x.Num?
    ensures Meaning(x) == ParseArray(c, s).value
    decreases |s|, 4
  {
    hide ParseItems; hide Expect; hide ItemsText; hide ItemsOk; hide ItemValues;
    if Expect(s, ']').Some? {
      var blank := ExpectHas(s, ']');
      x := List([], blank);
      NoItems<N>(c);
      assert "[" + s == "[" + blank + "]" + Expect(s, ']').value;
    } else {
      var items := HasItems(c, s, []);
      x := List(items, "");
      assert [] + ItemValues(items) == ItemValues(items);
      assert "[" + s == "[" + ItemsText(items) + "]" + ParseItems(c, s, []).rest;
    }
  }

  lemma NoItems<N>(c: Codec<N>)
    ensures ItemsOk(c, []) && ItemValues<N>([]) == [] && FieldsOk(c, []) && White("")
  {
  }

  /** The first value of a list, with the space around it, and the comma or bracket behind it. */
  lemma HasItem<N>(c: Codec<N>, s: string, y: char) returns (i: Item<N>)
    requires ParseValue(c, s).Ok? && Expect(ParseValue(c, s).rest, y).Some?
    ensures ItemOk(c, i) && ItemValue(i) == ParseValue(c, s).value
    ensures s == ItemText(i) + ([y] + Expect(ParseValue(c, s).rest, y).value)
    decreases |s|, 2, 1
  {
    hide ParseValue; hide Expect; hide SyntaxText; hide SyntaxOk; hide Meaning;
    var r := ParseValue(c, s).rest;
    var w, x := HasSyntax(c, s);
    var after := ExpectHas(r, y);
    i := Item(w, x, after);
    assert s == w + SyntaxText(x) + (after + ([y] + Expect(r, y).value));
  }

  /** A first part, a comma, and what follows up to the closing bracket. */
  lemma CommaClosed(a: string, b: string, close: string, end: string)
    ensures a + ("," + (b + close + end)) == a + "," + b + close + end
  {
  }

  lemma HasItems<N>(c: Codec<N>, s: string, acc: seq<Value<N>>) returns (items: seq<Item<N>>)
    requires ParseItems(c, s, acc).Ok?
    ensures items != [] && ItemsOk(c, items) && s == ItemsText(items) + "]" + ParseItems(c, s, acc).rest
    ensures ParseItems(c, s, acc).value == Array(acc + ItemValues(items))
    decreases |s|, 3
  {
    hide *;
    ItemsCases(c, s, acc);
    var v, r, end := ParseValue(c, s).value, ParseValue(c, s).rest, ParseItems(c, s, acc).rest;
    if Expect(r, ',').Some? {
      var i := HasItem(c, s, ',');
      var rest := HasItems(c, Expect(r, ',').value, acc + [v]);
      items := [i] + rest;
      ConsItems(c, i, rest, s, end);
      AppendTwo(acc, v, ItemValues(rest));
    } else {
      var i := HasItem(c, s, ']');
      items := [i];
      OnlyItem(c, i, s, end);
    }
  }

  lemma AppendTwo<T>(acc: seq<T>, v: T, rest: seq<T>)
    ensures acc + [v] + rest == acc + ([v] + rest)
  {
  }

  lemma ConsItems<N>(c: Codec<N>, i: Item<N>, rest: seq<Item<N>>, s: string, end: string)
    requires ItemOk(c, i) && ItemsOk(c, rest) && rest != []
    requires s == ItemText(i) + ([','] + (ItemsText(rest) + "]" + end))
    ensures ItemsOk(c, [i] + rest) && s == ItemsText([i] + rest) + "]" + end
    ensures ItemValues([i] + rest) == [ItemValue(i)] + ItemValues(rest)
  {
    hide ItemText; hide ItemsText; hide ItemsOk; hide ItemOk; hide ItemValues; hide ItemValue;
    MoreItems(c, i, rest);
    CommaClosed(ItemText(i), ItemsText(rest), "]", end);
    assert [','] == ",";
  }

  lemma OnlyItem<N>(c: Codec<N>, i: Item<N>, s: string, end: string)
    requires ItemOk(c, i) && s == ItemText(i) + ([']'] + end)
    ensures ItemsOk(c, [i]) && s == ItemsText([i]) + "]" + end && ItemValues([i]) == [ItemValue(i)]
  {
    hide ItemText; hide ItemsText; hide ItemsOk; hide ItemOk; hide ItemValues; hide ItemValue;
    LastItem(c, i);
    Join(ItemText(i), "]", end);
    assert [']'] == "]";
  }

  lemma ItemsCases<N>(c: Codec<N>, s: string, acc: seq<Value<N>>)
    requires ParseItems(c, s, acc).Ok?
    ensures ParseValue(c, s).Ok?
    ensures var v, r := ParseValue(c, s).value, ParseValue(c, s).rest;
            if Expect(r, ',').Some? then ParseItems(c, s, acc) == ParseItems(c, Expect(r, ',').value, acc + [v])
            else Expect(r, ']').Some? && ParseItems(c, s, acc) == Ok(Array(acc + [v]), Expect(r, ']').value)
    ensures |ParseValue(c, s).rest| < |s|
    ensures Expect(ParseValue(c, s).rest, ',').Some? ==> |Expect(ParseValue(c, s).rest, ',').value| < |s|
  {
    hide ParseValue; hide Expect;
  }

  lemma MoreItems<N>(c: Codec<N>, i: Item<N>, rest: seq<Item<N>>)
    requires ItemOk(c, i) && ItemsOk(c, rest) && rest != []
    ensures ItemsOk(c, [i] + rest) && ItemsText([i] + rest) == ItemText(i) + "," + ItemsText(rest)
    ensures ItemValues([i] + rest) == [ItemValue(i)] + ItemValues(rest)
  {
    assert ([i] + rest)[1..] == rest;
  }

  lemma LastItem<N>(c: Codec<N>, i: Item<N>)
    requires ItemOk(c, i)
    ensures ItemsOk(c, [i]) && ItemsText([i]) == ItemText(i) && ItemValues([i]) == [ItemValue(i)]
  {
    assert [i][1..] == [];
  }

  lemma HasDict<N>(c: Codec<N>, s: string) returns (x: Syntax<N>)
    requires ParseObject(c, s).Ok?
    ensures SyntaxOk(c, x) && "{" + s == SyntaxText(x) + ParseObject(c, s).rest && !x.Num?
    ensures Meaning(x) == ParseObject(c, s).value
    decreases |s|, 4
  {
    hide ParseFields; hide Expect; hide FieldsText; hide FieldsOk;
    if Expect(s, '}').Some? {
      var blank := ExpectHas(s, '}');
      x := Dict([], blank);
      NoItems<N>(c);
      assert "{" + s == "{" + blank + "}" + Expect(s, '}').value;
    } else {
      hide FieldValues;
      var fields := HasFields(c, s, map[]);
      x := Dict(fields, "");
      assert "{" + s == "{" + FieldsText(fields) + "}" + ParseFields(c, s, map[]).rest;
    }
  }

  /** A key with the space around it and its colon. */
  lemma HasKey(s: string) returns (space: string, ps: seq<Piece>, colon: string)
    requires ParseKey(s).Ok?
    ensures White(space) && White(colon) && PiecesOk(ps) && Spells(ps, ParseKey(s).value)
    ensures s == space + "\"" + PiecesText(ps) + "\"" + colon + ":" + ParseKey(s).rest
  {
    hide Expect; hide ParseString; hide PiecesText; hide PiecesOk; hide Spells;
    space := ExpectHas(s, '\"');
    var r := Expect(s, '\"').value;
    var v;
    ps, v := StringHasPieces(r, "");
    assert "" + v == v;
    colon := ExpectHas(ParseString(r, "").rest, ':');
    KeyText(space, PiecesText(ps), colon, ParseKey(s).rest);
  }

  lemma KeyText(space: string, t: string, colon: string, s: string)
    ensures space + (['\"'] + (t + "\"" + (colon + ([':'] + s)))) == space + "\"" + t + "\"" + colon + ":" + s
  {
  }

  lemma FieldTextIs<N>(f: Field<N>, s: string)
    ensures f.space + "\"" + PiecesText(f.ps) + "\"" + f.colon + ":" + (ItemText(f.item) + s) == FieldText(f) + s
  {
    hide ItemText; hide PiecesText;
  }

  lemma HasField<N>(c: Codec<N>, s: string, y: char) returns (f: Field<N>)
    requires ParseKey(s).Ok? && ParseValue(c, ParseKey(s).rest).Ok?
    requires Expect(ParseValue(c, ParseKey(s).rest).rest, y).Some?
    ensures FieldOk(c, f) && f.key == ParseKey(s).value && ValueOf(f) == ParseValue(c, ParseKey(s).rest).value
    ensures s == FieldText(f) + ([y] + Expect(ParseValue(c, ParseKey(s).rest).rest, y).value)
    decreases |s|, 2, 2
  {
    hide ParseKey; hide ParseValue; hide Expect; hide ItemText; hide ItemOk; hide ItemValue; hide PiecesOk; hide Spells;
    hide FieldText; hide PiecesText;
    var space, ps, colon := HasKey(s);
    var i := HasItem(c, ParseKey(s).rest, y);
    f := Field(space, ps, ParseKey(s).value, colon, i);
    FieldTextIs(f, [y] + Expect(ParseValue(c, ParseKey(s).rest).rest, y).value);
  }

  lemma HasFields<N>(c: Codec<N>, s: string, acc: map<string, Value<N>>) returns (fields: seq<Field<N>>)
    requires ParseFields(c, s, acc).Ok?
    ensures fields != [] && FieldsOk(c, fields) && s == FieldsText(fields) + "}" + ParseFields(c, s, acc).rest
    ensures ParseFields(c, s, acc).value == Object(FieldValues(acc, fields))
    decreases |s|, 3
  {
    hide *;
    FieldsCases(c, s, acc);
    var key, t, end := ParseKey(s).value, ParseKey(s).rest, ParseFields(c, s, acc).rest;
    var v, r := ParseValue(c, t).value, ParseValue(c, t).rest;
    if Expect(r, ',').Some? {
      var f := HasField(c, s, ',');
      var rest := HasFields(c, Expect(r, ',').value, acc[key := v]);
      fields := [f] + rest;
      ConsFields(c, f, rest, acc, s, end);
    } else {
      var f := HasField(c, s, '}');
      fields := [f];
      OnlyField(c, f, acc, s, end);
    }
  }

  lemma ConsFields<N>(c: Codec<N>, f: Field<N>, rest: seq<Field<N>>, acc: map<string, Value<N>>, s: string, end: string)
    requires FieldOk(c, f) && FieldsOk(c, rest) && rest != []
    requires s == FieldText(f) + ([','] + (FieldsText(rest) + "}" + end))
    ensures FieldsOk(c, [f] + rest) && s == FieldsText([f] + rest) + "}" + end
    ensures FieldValues(acc, [f] + rest) == FieldValues(acc[f.key := ValueOf(f)], rest)
  {
    hide FieldText; hide FieldsText; hide FieldsOk; hide FieldOk; hide FieldValues; hide ValueOf;
    MoreFields(c, f, rest, acc);
    CommaClosed(FieldText(f), FieldsText(rest), "}", end);
    assert [','] == ",";
  }

  lemma OnlyField<N>(c: Codec<N>, f: Field<N>, acc: map<string, Value<N>>, s: string, end: string)
    requires FieldOk(c, f) && s == FieldText(f) + (['}'] + end)
    ensures FieldsOk(c, [f]) && s == FieldsText([f]) + "}" + end && FieldValues(acc, [f]) == acc[f.key := ValueOf(f)]
  {
    hide FieldText; hide FieldsText; hide FieldsOk; hide FieldOk; hide FieldValues; hide ValueOf;
    LastField(c, f, acc);
    Join(FieldText(f), "}", end);
    assert ['}'] == "}";
  }

  lemma FieldsCases<N>(c: Codec<N>, s: string, acc: map<string, Value<N>>)
    requires ParseFields(c, s, acc).Ok?
    ensures ParseKey(s).Ok? && ParseValue(c, ParseKey(s).rest).Ok?
    ensures var key, v, r := ParseKey(s).value, ParseValue(c, ParseKey(s).rest).value, ParseValue(c, ParseKey(s).rest).rest;
            && |r| < |s|
            && if Expect(r, ',').Some? then
                 && |Expect(r, ',').value| < |s|
                 && ParseFields(c, s, acc) == ParseFields(c, Expect(r, ',').value, acc[key := v])
               else Expect(r, '}').Some? && ParseFields(c, s, acc) == Ok(Object(acc[key := v]), Expect(r, '}').value)
  {
    hide ParseKey; hide ParseValue; hide Expect;
  }

  lemma MoreFields<N>(c: Codec<N>, f: Field<N>, rest: seq<Field<N>>, acc: map<string, Value<N>>)
    requires FieldOk(c, f) && FieldsOk(c, rest) && rest != []
    ensures FieldsOk(c, [f] + rest) && FieldsText([f] + rest) == FieldText(f) + "," + FieldsText(rest)
    ensures FieldValues(acc, [f] + rest) == FieldValues(acc[f.key := ValueOf(f)], rest)
  {
    assert ([f] + rest)[1..] == rest;
  }

  lemma LastField<N>(c: Codec<N>, f: Field<N>, acc: map<string, Value<N>>)
    requires FieldOk(c, f)
    ensures FieldsOk(c, [f]) && FieldsText([f]) == FieldText(f)
    ensures FieldValues(acc, [f]) == acc[f.key := ValueOf(f)]
  {
    assert [f][1..] == [];
    assert FieldValues(acc, [f]) == FieldValues(acc[f.key := ValueOf(f)], []);
  }
}
