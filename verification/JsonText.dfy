/**
 JSON text as the library writes and reads it: values, the printer, and the parser as a
 function from the unread text to a value and the text that is left.  A byte is a char.
 */
module JsonText {
  import opened Wrappers

  datatype Value<+N> =
    | Null
    | Bool(b: bool)
    | Number(n: N)
    | Str(s: string)
    | Array(items: seq<Value<N>>)
    | Object(fields: map<string, Value<N>>)

  /** A value with an order of iteration for the fields of each object. */
  datatype Tree<+N> =
    | TNull
    | TBool(b: bool)
    | TNumber(n: N)
    | TStr(s: string)
    | TArray(items: seq<Tree<N>>)
    | TObject(fields: seq<(string, Tree<N>)>)

  /** How numbers are written and read back. */
  datatype Codec<!N> = Codec(show: N -> string, read: string -> Option<N>)

  function ToValue<N>(t: Tree<N>): Value<N> {
    match t
    case TNull => Null
    case TBool(b) => Bool(b)
    case TNumber(n) => Number(n)
    case TStr(s) => Str(s)
    case TArray(items) => Array(ToItems(items))
    case TObject(fields) => Object(ToFields(fields))
  }

  function ToItems<N>(items: seq<Tree<N>>): seq<Value<N>> {
    if |items| == 0 then [] else [ToValue(items[0])] + ToItems(items[1..])
  }

  function ToFields<N>(fields: seq<(string, Tree<N>)>): map<string, Value<N>> {
    if |fields| == 0 then map[] else ToFields(fields[1..])[fields[0].0 := FieldValue(fields[0])]
  }

  function FieldValue<N>(f: (string, Tree<N>)): Value<N> {
    ToValue(f.1)
  }

  /** No object has two fields with one key. */
  ghost predicate DistinctKeys<N>(t: Tree<N>) {
    match t
    case TArray(items) => forall i :: 0 <= i < |items| ==> DistinctKeys(items[i])
    case TObject(fields) =>
      && (forall i :: 0 <= i < |fields| ==> DistinctKeys(fields[i].1))
      && (forall i, j :: 0 <= i < j < |fields| ==> fields[i].0 != fields[j].0)
    case _ => true
  }

  // ----- printing

  const HEX: string := "0123456789abcdef"

  function EscapeChar(c: char): string {
    if c == '\"' then "\\\""
    else if c == '\\' then "\\\\"
    else if c == '/' then "\\/"
    else if c == 8 as char then "\\b"
    else if c == 12 as char then "\\f"
    else if c == '\n' then "\\n"
    else if c == '\r' then "\\r"
    else if c == '\t' then "\\t"
    else if c < ' ' || c == 127 as char then "\\u00" + [HEX[c as int / 16], HEX[c as int % 16]]
    else [c]
  }

  function Escape(s: string): string {
    if |s| == 0 then "" else EscapeChar(s[0]) + Escape(s[1..])
  }

  function Quote(s: string): string {
    "\"" + Escape(s) + "\""
  }

  function Spaces(n: nat): string {
    seq(n, _ => ' ')
  }

  const INDENT_WIDTH: nat := 2

  /** A line break and indentation in the prettified form, nothing in the compact one. */
  function Break(indent: int): string {
    if indent < 0 then "" else "\n" + Spaces(indent * INDENT_WIDTH)
  }

  function Inner(indent: int): int {
    if indent == -1 then -1 else indent + 1
  }

  /** The text of a value without the line break that ends a prettified document. */
  function Print<N>(c: Codec<N>, t: Tree<N>, indent: int): string
    decreases t, 1
  {
    match t
    case TNull => "null"
    case TBool(b) => if b then "true" else "false"
    case TNumber(n) => c.show(n)
    case TStr(s) => Quote(s)
    case TArray(items) =>
      "[" + PrintItems(c, items, Inner(indent)) + (if |items| == 0 then "" else Break(indent)) + "]"
    case TObject(fields) =>
      "{" + PrintFields(c, fields, Inner(indent)) + (if |fields| == 0 then "" else Break(indent)) + "}"
  }

  function PrintItems<N>(c: Codec<N>, items: seq<Tree<N>>, indent: int): string
    decreases items, 0
  {
    if |items| == 0 then ""
    else Break(indent) + Print(c, items[0], indent) + PrintMoreItems(c, items[1..], indent)
  }

  function PrintMoreItems<N>(c: Codec<N>, items: seq<Tree<N>>, indent: int): string
    decreases items, 0
  {
    if |items| == 0 then ""
    else "," + Break(indent) + Print(c, items[0], indent) + PrintMoreItems(c, items[1..], indent)
  }

  function PrintField<N>(c: Codec<N>, f: (string, Tree<N>), indent: int): string
    decreases f, 2
  {
    Break(indent) + Quote(f.0) + ":" + (if indent < 0 then "" else " ") + Print(c, f.1, indent)
  }

  function PrintFields<N>(c: Codec<N>, fields: seq<(string, Tree<N>)>, indent: int): string
    decreases fields, 3
  {
    if |fields| == 0 then "" else PrintField(c, fields[0], indent) + PrintMoreFields(c, fields[1..], indent)
  }

  function PrintMoreFields<N>(c: Codec<N>, fields: seq<(string, Tree<N>)>, indent: int): string
    decreases fields, 3
  {
    if |fields| == 0 then "" else "," + PrintField(c, fields[0], indent) + PrintMoreFields(c, fields[1..], indent)
  }

  /** A whole document; prettified ones end with a line break. */
  function Serialize<N>(c: Codec<N>, t: Tree<N>, prettify: bool): string {
    Print(c, t, if prettify then 0 else -1) + if prettify then "\n" else ""
  }

  // ----- parsing

  datatype Parsed<+T> = Ok(value: T, rest: string) | Fail

  predicate IsSpace(c: char) {
    c == ' ' || c == '\t' || c == '\n' || c == '\r'
  }

  function SkipSpace(s: string): (r: string)
    ensures |r| <= |s|
    ensures |r| > 0 ==> !IsSpace(r[0])
  {
    if |s| > 0 && IsSpace(s[0]) then SkipSpace(s[1..]) else s
  }

  /** Skip space and one expected character. */
  function Expect(s: string, c: char): (r: Option<string>)
    ensures r.Some? ==> |r.value| < |s|
  {
    var t := SkipSpace(s);
    if |t| > 0 && t[0] == c then Some(t[1..]) else None
  }

  function HexDigit(c: char): (r: int)
    ensures -1 <= r < 16
  {
    if '0' <= c <= '9' then c as int - '0' as int
    else if 'A' <= c <= 'F' then c as int - 'A' as int + 10
    else if 'a' <= c <= 'f' then c as int - 'a' as int + 10
    else -1
  }

  function QuadHex(s: string): (r: Parsed<nat>)
    ensures r.Ok? ==> |r.rest| == |s| - 4 && r.value < 0x10000
  {
    if |s| < 4 then Fail
    else
      var a, b, c, d := HexDigit(s[0]), HexDigit(s[1]), HexDigit(s[2]), HexDigit(s[3]);
      if a < 0 || b < 0 || c < 0 || d < 0 then Fail
      else Ok(((a * 16 + b) * 16 + c) * 16 + d, s[4..])
  }

  /** The UTF-8 bytes of a code point. */
  function Utf8(u: nat): string
    requires u < 0x110000
  {
    if u < 0x80 then [u as char]
    else if u < 0x800 then [(0xc0 + u / 0x40) as char, (0x80 + u % 0x40) as char]
    else if u < 0x10000 then [(0xe0 + u / 0x1000) as char, (0x80 + (u / 0x40) % 0x40) as char, (0x80 + u % 0x40) as char]
    else [(0xf0 + u / 0x40000) as char, (0x80 + (u / 0x1000) % 0x40) as char, (0x80 + (u / 0x40) % 0x40) as char,
        (0x80 + u % 0x40) as char]
  }

  function CodePoint(s: string): (r: Parsed<string>)
    ensures r.Ok? ==> |r.rest| < |s|
  {
    match QuadHex(s)
    case Fail => Fail
    case Ok(u, r) =>
      if u < 0xd800 || u > 0xdfff then Ok(Utf8(u), r)
      else if u >= 0xdc00 then Fail
      else if |r| < 2 || r[0] != '\\' || r[1] != 'u' then Fail
      else
        match QuadHex(r[2..])
        case Fail => Fail
        case Ok(v, r') =>
          if v < 0xdc00 || v > 0xdfff then Fail
          else Ok(Utf8((u - 0xd800) * 0x400 + (v - 0xdc00) + 0x10000), r')
  }

  /** What a one-letter escape stands for. */
  function Unescape(c: char): Option<char> {
    if c == '\"' || c == '\\' || c == '/' then Some(c)
    else if c == 'b' then Some(8 as char)
    else if c == 'f' then Some(12 as char)
    else if c == 'n' then Some('\n')
    else if c == 'r' then Some('\r')
    else if c == 't' then Some('\t')
    else None
  }

  /** The rest of a string after its opening quote; acc is what has been read. */
  function ParseString(s: string, acc: string): (r: Parsed<string>)
    ensures r.Ok? ==> |r.rest| < |s|
    decreases |s|
  {
    if |s| == 0 || s[0] < ' ' then Fail
    else if s[0] == '\"' then Ok(acc, s[1..])
    else if s[0] != '\\' then ParseString(s[1..], acc + [s[0]])
    else if |s| < 2 then Fail
    else if s[1] == 'u' then
      match CodePoint(s[2..])
      case Fail => Fail
      case Ok(bytes, r) => ParseString(r, acc + bytes)
    else
      match Unescape(s[1])
      case None => Fail
      case Some(c) => ParseString(s[2..], acc + [c])
  }

  predicate IsNumeric(c: char) {
    '0' <= c <= '9' || c == '+' || c == '-' || c == 'e' || c == 'E' || c == '.'
  }

  predicate StartsNumber(c: char) {
    '0' <= c <= '9' || c == '-'
  }

  lemma Join(a: string, b: string, c: string)
    ensures a + b + c == a + (b + c)
  {
  }

  /** The longest prefix of number characters. */
  function Token(s: string): (r: string)
    ensures |r| <= |s|
    ensures |s| > 0 && IsNumeric(s[0]) ==> |r| > 0
  {
    if |s| > 0 && IsNumeric(s[0]) then [s[0]] + Token(s[1..]) else ""
  }

  function Match(s: string, word: string): (r: Option<string>)
    ensures r.Some? ==> |r.value| == |s| - |word|
  {
    if word <= s then Some(s[|word|..]) else None
  }

  function Literal<N>(s: string, word: string, v: Value<N>): (r: Parsed<Value<N>>)
    ensures r.Ok? ==> |r.rest| <= |s|
  {
    match Match(s, word)
    case None => Fail
    case Some(r) => Ok(v, r)
  }

  function ParseNumber<N>(c: Codec<N>, s: string): (r: Parsed<Value<N>>)
    requires |s| > 0 && StartsNumber(s[0])
    ensures r.Ok? ==> |r.rest| < |s|
  {
    var token := Token(s);
    match c.read(token)
    case None => Fail
    case Some(n) => Ok(Number(n), s[|token|..])
  }

  function ParseValue<N>(c: Codec<N>, s: string): (r: Parsed<Value<N>>)
    ensures r.Ok? ==> |r.rest| < |s|
    decreases |s|, 2
  {
    var t := SkipSpace(s);
    if |t| == 0 then Fail
    else if t[0] == 'n' then Literal(t[1..], "ull", Null)
    else if t[0] == 'f' then Literal(t[1..], "alse", Bool(false))
    else if t[0] == 't' then Literal(t[1..], "rue", Bool(true))
    else if t[0] == '\"' then
      (match ParseString(t[1..], "")
       case Fail => Fail
       case Ok(v, r) => Ok(Str(v), r))
    else if t[0] == '[' then ParseArray(c, t[1..])
    else if t[0] == '{' then ParseObject(c, t[1..])
    else if StartsNumber(t[0]) then ParseNumber(c, t)
    else Fail
  }

  function ParseArray<N>(c: Codec<N>, s: string): (r: Parsed<Value<N>>)
    ensures r.Ok? ==> |r.rest| < |s|
    decreases |s|, 4
  {
    match Expect(s, ']')
    case Some(r) => Ok(Array([]), r)
    case None => ParseItems(c, s, [])
  }

  function ParseItems<N>(c: Codec<N>, s: string, acc: seq<Value<N>>): (r: Parsed<Value<N>>)
    ensures r.Ok? ==> |r.rest| < |s|
    decreases |s|, 3
  {
    match ParseValue(c, s)
    case Fail => Fail
    case Ok(v, r) =>
      match Expect(r, ',')
      case Some(r') => ParseItems(c, r', acc + [v])
      case None =>
        match Expect(r, ']')
        case Some(r') => Ok(Array(acc + [v]), r')
        case None => Fail
  }

  function ParseObject<N>(c: Codec<N>, s: string): (r: Parsed<Value<N>>)
    ensures r.Ok? ==> |r.rest| < |s|
    decreases |s|, 4
  {
    match Expect(s, '}')
    case Some(r) => Ok(Object(map[]), r)
    case None => ParseFields(c, s, map[])
  }

  function ParseKey(s: string): (r: Parsed<string>)
    ensures r.Ok? ==> |r.rest| < |s|
  {
    match Expect(s, '\"')
    case None => Fail
    case Some(r) =>
      match ParseString(r, "")
      case Fail => Fail
      case Ok(key, r') =>
        match Expect(r', ':')
        case None => Fail
        case Some(r'') => Ok(key, r'')
  }

  function ParseFields<N>(c: Codec<N>, s: string, acc: map<string, Value<N>>): (r: Parsed<Value<N>>)
    ensures r.Ok? ==> |r.rest| < |s|
    decreases |s|, 3
  {
    match ParseKey(s)
    case Fail => Fail
    case Ok(key, r) =>
      match ParseValue(c, r)
      case Fail => Fail
      case Ok(v, r') =>
        match Expect(r', ',')
        case Some(r'') => ParseFields(c, r'', acc[key := v])
        case None =>
          match Expect(r', '}')
          case Some(r'') => Ok(Object(acc[key := v]), r'')
          case None => Fail
  }
}
