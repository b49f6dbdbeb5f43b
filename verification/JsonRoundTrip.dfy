/**
 Parsing printed text gives the value back and stops at its end.
 */
module JsonRoundTrip {
  import opened Wrappers
  import opened JsonText

  // ----- strings

  lemma QuadHexOfControl(n: nat, s: string)
    requires n < 128
    ensures QuadHex("00" + [HEX[n / 16], HEX[n % 16]] + s) == Ok(n, s)
  {
    var t := "00" + [HEX[n / 16], HEX[n % 16]] + s;
    HexDigits(n / 16);
    HexDigits(n % 16);
    assert t[4..] == s;
    assert HexDigit('0') == 0;
  }

  lemma HexDigits(d: nat)
    requires d < 16
    ensures HexDigit(HEX[d]) == d
  {
    assert d == 0 || d == 1 || d == 2 || d == 3 || d == 4 || d == 5 || d == 6 || d == 7
        || d == 8 || d == 9 || d == 10 || d == 11 || d == 12 || d == 13 || d == 14 || d == 15;
  }

  /** Reading the escape of a character gives that character. */
  lemma UnescapeChar(c: char, s: string, acc: string)
    ensures ParseString(EscapeChar(c) + s, acc) == ParseString(s, acc + [c])
  {
    var e := EscapeChar(c);
    var t := e + s;
    if |e| == 1 {
      assert t[1..] == s;
    } else if |e| == 2 {
      assert t[2..] == s;
    } else {
      var n := c as int;
      assert t[2..] == "00" + [HEX[n / 16], HEX[n % 16]] + s;
      QuadHexOfControl(n, s);
      assert CodePoint(t[2..]) == Ok([c], s);
    }
  }

  lemma {:induction false} UnescapeString(text: string, s: string, acc: string)
    ensures ParseString(Escape(text) + "\"" + s, acc) == Ok(acc + text, s)
    decreases |text|
  {
    hide ParseString; hide EscapeChar; hide Escape;
    EscapeSplit(text, s);
    if |text| == 0 {
      StringEnds(s, acc);
      assert acc + text == acc;
    } else {
      var c, rest := text[0], text[1..];
      UnescapeChar(c, Escape(rest) + "\"" + s, acc);
      UnescapeString(rest, s, acc + [c]);
      assert acc + [c] + rest == acc + text;
    }
  }

  lemma EscapeSplit(text: string, s: string)
    ensures |text| == 0 ==> Escape(text) + "\"" + s == "\"" + s
    ensures |text| > 0 ==> Escape(text) + "\"" + s == EscapeChar(text[0]) + (Escape(text[1..]) + "\"" + s)
  {
    hide EscapeChar;
    if |text| > 0 {
      Join(EscapeChar(text[0]), Escape(text[1..]), "\"");
      Join(EscapeChar(text[0]), Escape(text[1..]) + "\"", s);
    }
  }

  lemma StringEnds(s: string, acc: string)
    ensures ParseString("\"" + s, acc) == Ok(acc, s)
  {
    assert ("\"" + s)[1..] == s;
  }

  lemma QuotedString(text: string, s: string)
    ensures |Quote(text)| >= 2 && Quote(text)[0] == '\"'
    ensures ParseString((Quote(text) + s)[1..], "") == Ok(text, s)
  {
    assert (Quote(text) + s)[1..] == Escape(text) + "\"" + s;
    UnescapeString(text, s, "");
    assert "" + text == text;
  }

  // ----- space

  lemma {:induction false} SkipSpaces(n: nat, s: string)
    ensures SkipSpace(Spaces(n) + s) == SkipSpace(s)
  {
    if n == 0 {
      assert Spaces(0) + s == s;
    } else {
      assert (Spaces(n) + s)[1..] == Spaces(n - 1) + s;
      SkipSpaces(n - 1, s);
    }
  }

  lemma SkipBreak(indent: int, s: string)
    ensures SkipSpace(Break(indent) + s) == SkipSpace(s)
  {
    if indent < 0 {
      assert Break(indent) + s == s;
    } else {
      var n := indent * INDENT_WIDTH;
      assert (Break(indent) + s)[1..] == Spaces(n) + s;
      SkipSpaces(n, s);
    }
  }

  /** Leading space changes nothing for a parser that skips space first. */
  lemma ParseSkips<N>(c: Codec<N>, s: string, t: string)
    requires SkipSpace(s) == SkipSpace(t)
    ensures ParseValue(c, s) == ParseValue(c, t)
  {
    hide SkipSpace; hide ParseString; hide ParseArray; hide ParseObject; hide ParseNumber; hide Literal;
  }

  lemma NoSpace(s: string)
    requires |s| > 0 && !IsSpace(s[0])
    ensures SkipSpace(s) == s
  {
  }

  // ----- numbers

  ghost predicate Numeral(s: string) {
    |s| > 0 && StartsNumber(s[0]) && forall i :: 0 <= i < |s| ==> IsNumeric(s[i])
  }

  /** Numbers are written as number tokens and read back as they were. */
  ghost predicate CodecOk<N(!new)>(c: Codec<N>) {
    forall n :: Numeral(c.show(n)) && c.read(c.show(n)) == Some(n)
  }

  ghost predicate Stops(s: string) {
    |s| == 0 || !IsNumeric(s[0])
  }

  lemma {:induction false} TokenStops(token: string, s: string)
    requires Stops(s) && forall i :: 0 <= i < |token| ==> IsNumeric(token[i])
    ensures Token(token + s) == token
    decreases |token|
  {
    if |token| == 0 {
      assert token + s == s;
    } else {
      assert (token + s)[1..] == token[1..] + s;
      TokenStops(token[1..], s);
      assert [token[0]] + token[1..] == token;
    }
  }

  lemma NumberRoundTrip<N(!new)>(c: Codec<N>, n: N, s: string)
    requires CodecOk(c) && Stops(s)
    ensures ParseValue(c, c.show(n) + s) == Ok(Number(n), s)
  {
    var token := c.show(n);
    assert Numeral(token) && c.read(token) == Some(n);
    var t := token + s;
    assert t[0] == token[0] && StartsNumber(t[0]);
    NoSpace(t);
    TokenStops(token, s);
    assert t[|token|..] == s;
    assert ParseNumber(c, t) == Ok(Number(n), s);
  }

  // ----- values

  /** The first character of a printed value. */
  lemma FirstChar<N(!new)>(c: Codec<N>, t: Tree<N>, indent: int)
    requires CodecOk(c)
    ensures |Print(c, t, indent)| > 0
    ensures var x := Print(c, t, indent)[0]; !IsSpace(x) && x != ']' && x != '}' && x != ','
  {
    hide Escape; hide PrintItems; hide PrintFields;
    if t.TNumber? {
      assert Numeral(c.show(t.n));
    }
  }

  lemma NullRoundTrip<N>(c: Codec<N>, s: string)
    ensures ParseValue(c, "null" + s) == Ok(Null, s)
  {
    hide ParseString; hide ParseArray; hide ParseObject; hide ParseNumber;
    NoSpace("null" + s);
    assert ("null" + s)[1..] == "ull" + s && ("ull" + s)[3..] == s;
  }

  lemma TrueRoundTrip<N>(c: Codec<N>, s: string)
    ensures ParseValue(c, "true" + s) == Ok(Bool(true), s)
  {
    hide ParseString; hide ParseArray; hide ParseObject; hide ParseNumber;
    NoSpace("true" + s);
    assert ("true" + s)[1..] == "rue" + s && ("rue" + s)[3..] == s;
  }

  lemma FalseRoundTrip<N>(c: Codec<N>, s: string)
    ensures ParseValue(c, "false" + s) == Ok(Bool(false), s)
  {
    hide ParseString; hide ParseArray; hide ParseObject; hide ParseNumber;
    NoSpace("false" + s);
    assert ("false" + s)[1..] == "alse" + s && ("alse" + s)[4..] == s;
  }

  lemma StringRoundTrip<N>(c: Codec<N>, text: string, s: string)
    ensures ParseValue(c, Quote(text) + s) == Ok(Str(text), s)
  {
    hide ParseString; hide ParseArray; hide ParseObject; hide ParseNumber; hide Escape;
    QuotedString(text, s);
    NoSpace(Quote(text) + s);
  }

  /** Closing a list: a line break, if any, and the bracket. */
  lemma CloseList(indent: int, bracket: char, s: string)
    requires bracket == ']' || bracket == '}'
    ensures Expect(Break(indent) + [bracket] + s, bracket) == Some(s)
    ensures Expect(Break(indent) + [bracket] + s, ',') == None
    ensures Stops(Break(indent) + [bracket] + s)
  {
    var t := [bracket] + s;
    assert Break(indent) + [bracket] + s == Break(indent) + t;
    SkipBreak(indent, t);
    NoSpace(t);
    assert t[1..] == s;
  }

  lemma CommaFollows(s: string)
    ensures Expect("," + s, ',') == Some(s) && Stops("," + s)
  {
    NoSpace("," + s);
    assert ("," + s)[1..] == s;
  }

  /** One item and what comes before it. */
  lemma ItemRoundTrip<N(!new)>(c: Codec<N>, t: Tree<N>, indent: int, s: string)
    requires CodecOk(c) && DistinctKeys(t) && Stops(s)
    ensures ParseValue(c, Break(indent) + Print(c, t, indent) + s) == Ok(ToValue(t), s)
    decreases t, 2
  {
    hide ParseValue; hide DistinctKeys; hide ToValue; hide Print; hide Break;
    var u := Print(c, t, indent) + s;
    assert Break(indent) + Print(c, t, indent) + s == Break(indent) + u;
    SkipBreak(indent, u);
    ParseSkips(c, Break(indent) + u, u);
    RoundTrip(c, t, indent, s);
  }

  /** Printing and parsing are inverse, whatever text follows. */
  lemma RoundTrip<N(!new)>(c: Codec<N>, t: Tree<N>, indent: int, s: string)
    requires CodecOk(c) && DistinctKeys(t) && Stops(s)
    ensures ParseValue(c, Print(c, t, indent) + s) == Ok(ToValue(t), s)
    decreases t, 1
  {
    match t
    case TNull => NullRoundTrip(c, s);
    case TBool(true) => TrueRoundTrip(c, s);
    case TBool(false) => FalseRoundTrip(c, s);
    case TNumber(n) => NumberRoundTrip(c, n, s);
    case TStr(text) => StringRoundTrip(c, text, s);
    case TArray(items) => ArrayRoundTrip(c, items, indent, s);
    case TObject(fields) => ObjectRoundTrip(c, fields, indent, s);
  }

  lemma Brackets<N>(c: Codec<N>, body: string)
    ensures ParseValue(c, "[" + body) == ParseArray(c, body)
    ensures ParseValue(c, "{" + body) == ParseObject(c, body)
  {
    hide ParseString; hide ParseArray; hide ParseObject; hide ParseNumber; hide Literal;
    NoSpace("[" + body);
    NoSpace("{" + body);
    assert ("[" + body)[1..] == body && ("{" + body)[1..] == body;
  }

  lemma EmptyLists<N>(c: Codec<N>, s: string)
    ensures ParseArray(c, "]" + s) == Ok(Array([]), s)
    ensures ParseObject(c, "}" + s) == Ok(Object(map[]), s)
  {
    hide ParseItems; hide ParseFields;
    NoSpace("]" + s);
    NoSpace("}" + s);
    assert ("]" + s)[1..] == s && ("}" + s)[1..] == s;
  }

  lemma Assoc(a: string, b: string, x: string, y: string)
    ensures a + b + x + y == a + b + (x + y)
    ensures a + b + (x + y) == a + (b + (x + y))
  {
  }

  lemma PrintedArray<N>(c: Codec<N>, items: seq<Tree<N>>, indent: int, s: string)
    ensures |items| == 0 ==> Print(c, TArray(items), indent) + s == "[" + ("]" + s)
    ensures |items| > 0 ==>
              Print(c, TArray(items), indent) + s == "[" + (PrintItems(c, items, Inner(indent)) + (Break(indent) + "]" + s))
  {
    hide PrintItems; hide Break; hide Inner;
    if |items| == 0 {
      NoItems(c, items, Inner(indent));
    }
  }

  lemma NoItems<N>(c: Codec<N>, items: seq<Tree<N>>, indent: int)
    requires |items| == 0
    ensures PrintItems(c, items, indent) == ""
  {
  }

  lemma SomeItems<N>(c: Codec<N>, items: seq<Tree<N>>, indent: int)
    requires |items| > 0
    ensures PrintItems(c, items, indent) == Break(indent) + Print(c, items[0], indent) + PrintMoreItems(c, items[1..],
        indent)
  {
  }

  lemma ArrayRoundTrip<N(!new)>(c: Codec<N>, items: seq<Tree<N>>, indent: int, s: string)
    requires CodecOk(c) && (forall i :: 0 <= i < |items| ==> DistinctKeys(items[i])) && Stops(s)
    ensures ParseValue(c, Print(c, TArray(items), indent) + s) == Ok(Array(ToItems(items)), s)
    decreases items, 3
  {
    hide *;
    PrintedArray(c, items, indent, s);
    if |items| == 0 {
      Brackets(c, "]" + s);
      EmptyLists(c, s);
      NoValues(items);
    } else {
      var inner := Inner(indent);
      var first, more, close := Print(c, items[0], inner), PrintMoreItems(c, items[1..], inner), Break(indent) + "]" + s;
      SomeItems(c, items, inner);
      Assoc(Break(inner), first, more, close);
      Brackets(c, Break(inner) + first + more + close);
      NotClosed(c, items[0], inner, more + close);
      ItemsRoundTrip(c, items, inner, indent, s, []);
      ArrayIsItems(c, Break(inner) + first + more + close);
      assert [] + ToItems(items) == ToItems(items);
    }
  }

  lemma NoValues<N>(items: seq<Tree<N>>)
    requires |items| == 0
    ensures ToItems(items) == []
  {
  }

  lemma ArrayIsItems<N>(c: Codec<N>, s: string)
    requires Expect(s, ']') == None
    ensures ParseArray(c, s) == ParseItems(c, s, [])
  {
    hide ParseItems; hide Expect;
  }

  lemma ObjectIsFields<N>(c: Codec<N>, s: string)
    requires Expect(s, '}') == None
    ensures ParseObject(c, s) == ParseFields(c, s, map[])
  {
    hide ParseFields; hide Expect;
  }

  lemma NotClosed<N(!new)>(c: Codec<N>, t: Tree<N>, indent: int, s: string)
    requires CodecOk(c)
    ensures Expect(Break(indent) + Print(c, t, indent) + s, ']') == None
  {
    hide Break; hide Print;
    var u := Print(c, t, indent) + s;
    assert Break(indent) + Print(c, t, indent) + s == Break(indent) + u;
    FirstChar(c, t, indent);
    SkipBreak(indent, u);
    NoSpace(u);
  }

  lemma ItemsRoundTrip<N(!new)>(c: Codec<N>, items: seq<Tree<N>>, indent: int, outer: int, s: string,
      acc: seq<Value<N>>)
    requires CodecOk(c) && (forall i :: 0 <= i < |items| ==> DistinctKeys(items[i])) && Stops(s) && |items| > 0
    ensures ParseItems(c, Break(indent) + Print(c, items[0], indent) + PrintMoreItems(c, items[1..], indent)
                          + (Break(outer) + "]" + s), acc)
         == Ok(Array(acc + ToItems(items)), s)
    decreases items, 2
  {
    hide DistinctKeys; hide Print; hide ParseValue; hide Expect; hide Break; hide ToValue;
    var first, more, close := Print(c, items[0], indent), PrintMoreItems(c, items[1..], indent), Break(outer) + "]" + s;
    assert Break(indent) + first + more + close == Break(indent) + first + (more + close);
    assert items[0] in items;
    if |items| == 1 {
      assert more + close == close;
      CloseList(outer, ']', s);
      ItemRoundTrip(c, items[0], indent, close);
      assert ToItems(items) == [ToValue(items[0])];
    } else {
      var next := Break(indent) + Print(c, items[1], indent) + PrintMoreItems(c, items[2..], indent) + close;
      assert items[1..][0] == items[1] && items[1..][1..] == items[2..];
      assert more + close == "," + next;
      CommaFollows(next);
      ItemRoundTrip(c, items[0], indent, more + close);
      ItemsRoundTrip(c, items[1..], indent, outer, s, acc + [ToValue(items[0])]);
      assert acc + [ToValue(items[0])] + ToItems(items[1..]) == acc + ToItems(items);
    }
  }

  lemma KeyParts(s: string, u: string, key: string, r: string)
    requires SkipSpace(s) == u && |u| > 0 && u[0] == '\"' && ParseString(u[1..], "") == Ok(key, ":" + r)
    ensures ParseKey(s) == Ok(key, r)
  {
    hide ParseString;
    NoSpace(":" + r);
    assert (":" + r)[1..] == r;
  }

  lemma KeyRoundTrip(key: string, indent: int, s: string)
    ensures ParseKey(Break(indent) + Quote(key) + ":" + s) == Ok(key, s)
  {
    hide *;
    var u := Quote(key) + (":" + s);
    Assoc(Break(indent), Quote(key), ":", s);
    QuotedString(key, ":" + s);
    SkipBreak(indent, u);
    QuoteNoSpace(u);
    KeyParts(Break(indent) + u, u, key, s);
  }

  lemma QuoteNoSpace(u: string)
    requires |u| > 0 && u[0] == '\"'
    ensures SkipSpace(u) == u
  {
  }

  /** One field and what comes before it. */
  lemma FieldRoundTrip<N(!new)>(c: Codec<N>, f: (string, Tree<N>), indent: int, s: string)
    requires CodecOk(c) && DistinctKeys(f.1) && Stops(s)
    ensures var k := ParseKey(PrintField(c, f, indent) + s);
            k.Ok? && k.value == f.0 && ParseValue(c, k.rest) == Ok(FieldValue(f), s)
    decreases f, 2
  {
    hide DistinctKeys; hide Print; hide ParseValue; hide ParseKey; hide Quote; hide Break; hide ToValue;
    var gap := if indent < 0 then "" else " ";
    var u := Print(c, f.1, indent) + s;
    assert PrintField(c, f, indent) + s == Break(indent) + Quote(f.0) + ":" + (gap + u);
    KeyRoundTrip(f.0, indent, gap + u);
    SkipGap(indent, u);
    ParseSkips(c, gap + u, u);
    RoundTrip(c, f.1, indent, s);
  }

  lemma SkipGap(indent: int, u: string)
    ensures SkipSpace((if indent < 0 then "" else " ") + u) == SkipSpace(u)
  {
    assert "" + u == u;
    assert (" " + u)[1..] == u;
  }

  ghost predicate DistinctFields<N>(fields: seq<(string, Tree<N>)>) {
    && (forall i :: 0 <= i < |fields| ==> DistinctKeys(fields[i].1))
    && (forall i, j :: 0 <= i < j < |fields| ==> fields[i].0 != fields[j].0)
  }

  lemma FieldFirstChar<N(!new)>(c: Codec<N>, f: (string, Tree<N>), indent: int, s: string)
    ensures Expect(PrintField(c, f, indent) + s, '}') == None
  {
    hide Print; hide Break; hide Escape;
    var gap := if indent < 0 then "" else " ";
    var u := Quote(f.0) + (":" + gap + Print(c, f.1, indent) + s);
    assert PrintField(c, f, indent) + s == Break(indent) + u;
    assert u[0] == '\"';
    SkipBreak(indent, u);
    NoSpace(u);
  }

  lemma PrintedObject<N>(c: Codec<N>, fields: seq<(string, Tree<N>)>, indent: int, s: string)
    ensures |fields| == 0 ==> Print(c, TObject(fields), indent) + s == "{" + ("}" + s)
    ensures |fields| > 0 ==>
              Print(c, TObject(fields), indent) + s == "{" + (PrintFields(c, fields, Inner(indent)) + (Break(indent) + "}" + s))
  {
    hide PrintFields; hide Break; hide Inner;
    if |fields| == 0 {
      NoFields(c, fields, Inner(indent));
    }
  }

  lemma NoFields<N>(c: Codec<N>, fields: seq<(string, Tree<N>)>, indent: int)
    requires |fields| == 0
    ensures PrintFields(c, fields, indent) == "" && ToFields(fields) == map[]
  {
  }

  lemma SomeFields<N>(c: Codec<N>, fields: seq<(string, Tree<N>)>, indent: int)
    requires |fields| > 0
    ensures PrintFields(c, fields, indent) == PrintField(c, fields[0], indent) + PrintMoreFields(c, fields[1..], indent)
  {
  }

  lemma ObjectRoundTrip<N(!new)>(c: Codec<N>, fields: seq<(string, Tree<N>)>, indent: int, s: string)
    requires CodecOk(c) && DistinctFields(fields) && Stops(s)
    ensures ParseValue(c, Print(c, TObject(fields), indent) + s) == Ok(Object(ToFields(fields)), s)
    decreases fields, 4
  {
    hide *;
    PrintedObject(c, fields, indent, s);
    if |fields| == 0 {
      Brackets(c, "}" + s);
      EmptyLists(c, s);
      NoFields(c, fields, indent);
    } else {
      var inner := Inner(indent);
      var first, more, close := PrintField(c, fields[0], inner), PrintMoreFields(c, fields[1..], inner), Break(indent) + "}" + s;
      SomeFields(c, fields, inner);
      Assoc("", first, more, close);
      assert "" + first == first;
      Brackets(c, first + more + close);
      FieldFirstChar(c, fields[0], inner, more + close);
      FieldsRoundTrip(c, fields, inner, indent, s, map[]);
      ObjectIsFields(c, first + more + close);
      assert map[] + ToFields(fields) == ToFields(fields);
    }
  }

  lemma {:induction false} FieldKeys<N>(fields: seq<(string, Tree<N>)>, k: string)
    requires k in ToFields(fields)
    ensures exists i :: 0 <= i < |fields| && fields[i].0 == k
  {
    if |fields| > 0 && k != fields[0].0 {
      FieldKeys(fields[1..], k);
      var i :| 0 <= i < |fields[1..]| && fields[1..][i].0 == k;
      assert fields[i + 1].0 == k;
    }
  }

  /** With distinct keys, adding fields from the front gives the same map. */
  lemma AddField<N>(fields: seq<(string, Tree<N>)>, acc: map<string, Value<N>>)
    requires |fields| > 0 && DistinctFields(fields)
    ensures acc[fields[0].0 := FieldValue(fields[0])] + ToFields(fields[1..]) == acc + ToFields(fields)
  {
    hide DistinctKeys; hide FieldValue;
    if fields[0].0 in ToFields(fields[1..]) {
      FieldKeys(fields[1..], fields[0].0);
    }
  }

  lemma FieldsRoundTrip<N(!new)>(c: Codec<N>, fields: seq<(string, Tree<N>)>, indent: int, outer: int, s: string,
      acc: map<string, Value<N>>)
    requires CodecOk(c) && DistinctFields(fields) && Stops(s) && |fields| > 0
    ensures ParseFields(c, PrintField(c, fields[0], indent) + PrintMoreFields(c, fields[1..], indent)
                           + (Break(outer) + "}" + s), acc)
         == Ok(Object(acc + ToFields(fields)), s)
    decreases fields, 3
  {
    hide DistinctKeys; hide PrintField; hide ParseValue; hide ParseKey; hide Expect; hide Break; hide FieldValue;
    var first, more, close := PrintField(c, fields[0], indent), PrintMoreFields(c, fields[1..], indent), Break(outer) + "}" + s;
    assert first + more + close == first + (more + close);
    AddField(fields, acc);
    if |fields| == 1 {
      assert more + close == close;
      CloseList(outer, '}', s);
      FieldRoundTrip(c, fields[0], indent, close);
      assert acc[fields[0].0 := FieldValue(fields[0])] + map[] == acc[fields[0].0 := FieldValue(fields[0])];
    } else {
      var next := PrintField(c, fields[1], indent) + PrintMoreFields(c, fields[2..], indent) + close;
      assert fields[1..][0] == fields[1] && fields[1..][1..] == fields[2..];
      assert more + close == "," + next;
      CommaFollows(next);
      FieldRoundTrip(c, fields[0], indent, more + close);
      FieldsRoundTrip(c, fields[1..], indent, outer, s, acc[fields[0].0 := FieldValue(fields[0])]);
    }
  }

  /** A document is read back as the value it was printed from, whatever the order in which
      the fields of its objects were visited; only the final line break is left. */
  lemma DocumentRoundTrip<N(!new)>(c: Codec<N>, t: Tree<N>, prettify: bool)
    requires CodecOk(c) && DistinctKeys(t)
    ensures ParseValue(c, Serialize(c, t, prettify)) == Ok(ToValue(t), if prettify then "\n" else "")
  {
    RoundTrip(c, t, if prettify then 0 else -1, if prettify then "\n" else "");
  }

  // ----- every value can be printed

  /** Every value is a tree for some order of iteration. */
  lemma EveryValueHasTree<N>(v: Value<N>) returns (t: Tree<N>)
    ensures ToValue(t) == v && DistinctKeys(t)
    decreases v, 1
  {
    match v
    case Null => t := TNull;
    case Bool(b) => t := TBool(b);
    case Number(n) => t := TNumber(n);
    case Str(s) => t := TStr(s);
    case Array(items) =>
      var ts := ItemTrees(items);
      t := TArray(ts);
    case Object(fields) =>
      var fs := FieldTrees(v, fields.Keys);
      t := TObject(fs);
      assert ToFields(fs) == fields;
  }

  lemma ItemTrees<N>(items: seq<Value<N>>) returns (ts: seq<Tree<N>>)
    ensures ToItems(ts) == items && forall i :: 0 <= i < |ts| ==> DistinctKeys(ts[i])
    decreases items, 0
  {
    if |items| == 0 {
      ts := [];
    } else {
      var t := EveryValueHasTree(items[0]);
      var rest := ItemTrees(items[1..]);
      ts := [t] + rest;
      assert ts[1..] == rest;
    }
  }

  lemma FieldTrees<N>(v: Value<N>, keys: set<string>) returns (fs: seq<(string, Tree<N>)>)
    requires v.Object? && keys <= v.fields.Keys
    ensures ToFields(fs) == map k | k in keys :: v.fields[k]
    ensures DistinctFields(fs) && forall i :: 0 <= i < |fs| ==> fs[i].0 in keys
    decreases v, 0, |keys|
  {
    if keys == {} {
      fs := [];
    } else {
      var k :| k in keys;
      var t := EveryValueHasTree(v.fields[k]);
      var rest := FieldTrees(v, keys - {k});
      fs := [(k, t)] + rest;
      assert fs[1..] == rest;
    }
  }

  // ----- the two layouts

  lemma TwoValues<N>(c: Codec<N>, indent: int)
    ensures Print(c, TArray([TNull, TBool(true)]), indent) ==
            "[" + (Break(Inner(indent)) + "null" + ("," + Break(Inner(indent)) + "true" + "")) + Break(indent) + "]"
  {
    hide Break;
    var items: seq<Tree<N>> := [TNull, TBool(true)];
    assert items[1..] == [TBool(true)] && items[1..][1..] == [];
    assert PrintMoreItems(c, items[1..][1..], Inner(indent)) == "";
    assert PrintMoreItems(c, items[1..], Inner(indent)) == "," + Break(Inner(indent)) + "true" + "";
  }

  lemma QuotedLetter()
    ensures Quote("a") == "\"a\""
  {
    assert "a"[1..] == "";
    assert Escape("") == "" && Escape("a") == "a";
  }

  lemma OneField<N>(c: Codec<N>, t: Tree<N>, indent: int)
    ensures Print(c, TObject([("a", t)]), indent) ==
            "{" + (Break(Inner(indent)) + "\"a\"" + ":" + (if Inner(indent) < 0 then "" else " ")
                   + Print(c, t, Inner(indent)) + "") + Break(indent) + "}"
  {
    QuotedLetter();
    hide Break; hide Quote;
    var fields := [("a", t)];
    assert fields[1..] == [];
    assert PrintMoreFields(c, fields[1..], Inner(indent)) == "";
    assert PrintField(c, fields[0], Inner(indent)) ==
           Break(Inner(indent)) + Quote("a") + ":" + (if Inner(indent) < 0 then "" else " ") + Print(c, t, Inner(indent));
    assert PrintFields(c, fields, Inner(indent)) == PrintField(c, fields[0], Inner(indent)) + "";
  }

  lemma Breaks()
    ensures Break(-1) == "" && Break(0) == "\n" && Break(1) == "\n  " && Break(2) == "\n    "
  {
    assert Spaces(0) == "" && Spaces(2) == "  " && Spaces(4) == "    ";
  }

  /** An array of two values, as it is printed: in the prettified form each item is on a line of its
      own, two spaces further in than its brackets. */
  lemma ArrayLayout<N>(c: Codec<N>)
    ensures var t: Tree<N> := TArray([TNull, TBool(true)]);
            Print(c, t, -1) == "[null,true]" && Print(c, t, 1) == "[\n    null,\n    true\n  ]"
  {
    Breaks();
    hide Break; hide Print;
    TwoValues(c, -1);
    TwoValues(c, 1);
  }

  /** An object with that array, as a document. */
  lemma LayoutExample<N>(c: Codec<N>)
    ensures var t := TObject([("a", TArray([TNull, TBool(true)]))]);
            && Serialize(c, t, false) == "{\"a\":" + "[null,true]" + "}"
            && Serialize(c, t, true) == "{\n  \"a\": " + "[\n    null,\n    true\n  ]" + "\n}\n"
  {
    var a: Tree<N> := TArray([TNull, TBool(true)]);
    ArrayLayout(c);
    Breaks();
    hide Break; hide Print;
    OneField(c, a, -1);
    OneField(c, a, 0);
    Around(Print(c, a, -1), Print(c, a, 1));
  }

  lemma Around(x: string, y: string)
    ensures "{" + ("" + "\"a\"" + ":" + "" + x + "") + "" + "}" + "" == "{\"a\":" + x + "}"
    ensures "{" + ("\n  " + "\"a\"" + ":" + " " + y + "") + "\n" + "}" + "\n" == "{\n  \"a\": " + y + "\n}\n"
  {
    assert "" + "\"a\"" + ":" + "" == "\"a\":" && "\n  " + "\"a\"" + ":" + " " == "\n  \"a\": ";
    assert "{" + "\"a\":" == "{\"a\":" && "{" + "\n  \"a\": " == "{\n  \"a\": ";
    assert "\n" + "}" + "\n" == "\n}\n";
  }
}
