/**
 What strings of JSON text stand for: an independent reading of the escapes and of UTF-8, and the
 proof that the parser reads exactly the strings of this grammar, as what they stand for.
 */
module JsonStrings {
  import opened Wrappers
  import opened JsonText

  // ----- UTF-8, section 3 of RFC 3629

  predicate Scalar(u: int) {
    0 <= u < 0x110000 && !(0xd800 <= u <= 0xdfff)
  }

  predicate Continues(c: char) {
    0x80 <= c as int <= 0xbf
  }

  /** How many bytes a character has, by its first one; 0 if no character starts with it. */
  function LeadLength(c: char): nat {
    var x := c as int;
    if x < 0x80 then 1
    else if 0xc0 <= x < 0xe0 then 2
    else if 0xe0 <= x < 0xf0 then 3
    else if 0xf0 <= x < 0xf8 then 4
    else 0
  }

  /** The bits that a leading byte contributes. */
  function LeadBits(c: char, n: nat): int {
    if n == 1 then c as int else if n == 2 then c as int - 0xc0 else if n == 3 then c as int - 0xe0 else c as int - 0xf0
  }

  /** Six bits from each continuation byte. */
  function AddBits(u: int, rest: string): int
    decreases |rest|
  {
    if |rest| == 0 then u else AddBits(u * 0x40 + (rest[0] as int - 0x80), rest[1..])
  }

  /** The least code point that needs n bytes. */
  function LeastOf(n: nat): int {
    if n == 1 then 0 else if n == 2 then 0x80 else if n == 3 then 0x800 else 0x10000
  }

  /** The code point of one character: the number of bytes that its first one announces, the
      rest continuation bytes, in the shortest form. */
  function DecodeUtf8(b: string): Option<nat> {
    if |b| == 0 || LeadLength(b[0]) != |b| then None
    else if exists i :: 1 <= i < |b| && !Continues(b[i]) then None
    else
      var u := AddBits(LeadBits(b[0], |b|), b[1..]);
      if u >= LeastOf(|b|) && Scalar(u) then Some(u) else None
  }

  /** Four, three, two bytes as one number. */
  lemma {:induction false} AddBitsIs(u: int, rest: string)
    requires |rest| <= 3
    ensures |rest| == 0 ==> AddBits(u, rest) == u
    ensures |rest| == 1 ==> AddBits(u, rest) == u * 0x40 + (rest[0] as int - 0x80)
    ensures |rest| == 2 ==> AddBits(u, rest) == u * 0x1000 + (rest[0] as int - 0x80) * 0x40 + (rest[1] as int - 0x80)
    ensures |rest| == 3 ==>
              AddBits(u, rest) == u * 0x40000 + (rest[0] as int - 0x80) * 0x1000 + (rest[1] as int - 0x80) * 0x40
                                  + (rest[2] as int - 0x80)
    decreases |rest|
  {
    if |rest| >= 1 {
      AddBitsIs(u * 0x40 + (rest[0] as int - 0x80), rest[1..]);
    }
  }

  lemma SixBits(u: nat)
    ensures u == u / 0x40 * 0x40 + u % 0x40 && u / 0x1000 == u / 0x40 / 0x40 && u / 0x40000 == u / 0x1000 / 0x40
    ensures u == u / 0x1000 * 0x1000 + u / 0x40 % 0x40 * 0x40 + u % 0x40
    ensures u == u / 0x40000 * 0x40000 + u / 0x1000 % 0x40 * 0x1000 + u / 0x40 % 0x40 * 0x40 + u % 0x40
  {
  }

  lemma BytesOf(u: nat)
    requires u < 0x110000
    ensures var b, n := Utf8(u), if u < 0x80 then 1 else if u < 0x800 then 2 else if u < 0x10000 then 3 else 4;
            && |b| == n && LeadLength(b[0]) == n && u >= LeastOf(n) && (forall i :: 1 <= i < n ==> Continues(b[i]))
            && (n > 1 ==> b[n - 1] as int - 0x80 == u % 0x40)
            && (n > 2 ==> b[n - 2] as int - 0x80 == u / 0x40 % 0x40)
            && (n > 3 ==> b[n - 3] as int - 0x80 == u / 0x1000 % 0x40)
            && LeadBits(b[0], n) == if n == 1 then u else if n == 2 then u / 0x40 else if n == 3 then u / 0x1000 else u / 0x40000
  {
    SixBits(u);
  }

  /** What is written for a code point is read as that code point. */
  lemma Utf8Decodes(u: nat)
    requires Scalar(u)
    ensures DecodeUtf8(Utf8(u)) == Some(u)
  {
    var b := Utf8(u);
    BytesOf(u);
    hide Utf8; hide LeadBits; hide LeadLength; hide LeastOf; hide AddBits; hide Continues;
    SixBits(u);
    AddBitsIs(LeadBits(b[0], |b|), b[1..]);
  }

  /** And nothing else is. */
  lemma Utf8Unique(b: string, u: nat)
    requires DecodeUtf8(b) == Some(u)
    ensures Scalar(u) && b == Utf8(u)
  {
    AddBitsIs(LeadBits(b[0], |b|), b[1..]);
    assert forall i :: 1 <= i < |b| ==> Continues(b[i]);
    if |b| == 1 {
      assert b == [b[0]];
    } else if |b| == 2 {
      Parts(u, 0, 0, LeadBits(b[0], 2), b[1] as int - 0x80);
      assert b == [b[0], b[1]];
    } else if |b| == 3 {
      Parts(u, 0, LeadBits(b[0], 3), b[1] as int - 0x80, b[2] as int - 0x80);
      assert b == [b[0], b[1], b[2]];
    } else {
      Parts(u, LeadBits(b[0], 4), b[1] as int - 0x80, b[2] as int - 0x80, b[3] as int - 0x80);
      assert b == [b[0], b[1], b[2], b[3]];
    }
  }

  lemma Parts(u: nat, w: int, x: int, y: int, z: int)
    requires u == w * 0x40000 + x * 0x1000 + y * 0x40 + z && 0 <= w && 0 <= x < 0x40 && 0 <= y < 0x40 && 0 <= z < 0x40
    ensures u % 0x40 == z && u / 0x40 % 0x40 == y && u / 0x1000 % 0x40 == x && u / 0x40000 == w
    ensures w == 0 ==> u / 0x1000 == x
    ensures w == 0 && x == 0 ==> u / 0x40 == y
  {
    assert u / 0x40 == w * 0x1000 + x * 0x40 + y;
    assert u / 0x1000 == w * 0x40 + x;
  }

  // ----- the pieces of a string, section 7 of RFC 8259

  const LOWER_DIGITS: string := "0123456789abcdef"
  const UPPER_DIGITS: string := "0123456789ABCDEF"

  predicate DigitIs(c: char, d: nat) {
    d < 16 && (c == LOWER_DIGITS[d] || c == UPPER_DIGITS[d])
  }

  /** Four hexadecimal digits, in either case of letters. */
  predicate HexText(t: string, u: nat) {
    && |t| == 4 && u < 0x10000
    && DigitIs(t[0], u / 0x1000) && DigitIs(t[1], u / 0x100 % 16) && DigitIs(t[2], u / 0x10 % 16)
    && DigitIs(t[3], u % 16)
  }

  /** What the letter of a short escape stands for. */
  function ShortEscapes(): map<char, int> {
    map['\"' := 0x22, '\\' := 0x5c, '/' := 0x2f, 'b' := 0x08, 'f' := 0x0c, 'n' := 0x0a, 'r' := 0x0d, 't' := 0x09]
  }

  /** A character as it is; an escape of one letter; a code point by four digits; a code point
      by a surrogate pair. */
  datatype Piece =
    | Plain(x: char)
    | Short(letter: char)
    | Digits(t: string, u: nat)
    | Pair(t: string, high: nat, t': string, low: nat)

  ghost predicate PieceOk(p: Piece) {
    match p
    case Plain(x) => x as int >= 0x20 && x as int != 0x22 && x as int != 0x5c
    case Short(l) => l in ShortEscapes()
    case Digits(t, u) => HexText(t, u) && Scalar(u)
    case Pair(t, high, t', low) => HexText(t, high) && HexText(t', low) && 0xd800 <= high < 0xdc00 <= low < 0xe000
  }

  function PieceText(p: Piece): string {
    match p
    case Plain(x) => [x]
    case Short(l) => ['\\', l]
    case Digits(t, _) => "\\u" + t
    case Pair(t, _, t', _) => "\\u" + t + "\\u" + t'
  }

  /** The code point of a surrogate pair: ten bits from each half. */
  function PairPoint(high: nat, low: nat): int {
    0x10000 + (high - 0xd800) * 0x400 + (low - 0xdc00)
  }

  /** The bytes that a piece stands for. */
  ghost predicate StandsFor(p: Piece, b: string) {
    match p
    case Plain(x) => b == [x]
    case Short(l) => l in ShortEscapes() && |b| == 1 && b[0] as int == ShortEscapes()[l]
    case Digits(_, u) => DecodeUtf8(b) == Some(u)
    case Pair(_, high, _, low) => PairPoint(high, low) >= 0 && DecodeUtf8(b) == Some(PairPoint(high, low))
  }

  ghost predicate PiecesOk(ps: seq<Piece>) {
    forall i :: 0 <= i < |ps| ==> PieceOk(ps[i])
  }

  function PiecesText(ps: seq<Piece>): string {
    if ps == [] then "" else PieceText(ps[0]) + PiecesText(ps[1..])
  }

  /** The pieces stand for v, one after the other. */
  ghost predicate Spells(ps: seq<Piece>, v: string) {
    if ps == [] then v == ""
    else exists k: nat :: k <= |v| && StandsFor(ps[0], v[..k]) && Spells(ps[1..], v[k..])
  }

  // ----- reading a piece

  lemma DigitRead(c: char, d: nat)
    ensures DigitIs(c, d) <==> d < 16 && HexDigit(c) == d
  {
    if d < 16 {
      assert d == 0 || d == 1 || d == 2 || d == 3 || d == 4 || d == 5 || d == 6 || d == 7
          || d == 8 || d == 9 || d == 10 || d == 11 || d == 12 || d == 13 || d == 14 || d == 15;
    }
  }

  lemma FourDigits(a: nat, b: nat, c: nat, d: nat)
    requires a < 16 && b < 16 && c < 16 && d < 16
    ensures var u := ((a * 16 + b) * 16 + c) * 16 + d;
            u < 0x10000 && u / 0x1000 == a && u / 0x100 % 16 == b && u / 0x10 % 16 == c && u % 16 == d
  {
    var u := ((a * 16 + b) * 16 + c) * 16 + d;
    assert u / 0x10 == (a * 16 + b) * 16 + c;
    assert u / 0x100 == a * 16 + b;
  }

  lemma HexNumber(u: nat)
    requires u < 0x10000
    ensures u == ((u / 0x1000 * 16 + u / 0x100 % 16) * 16 + u / 0x10 % 16) * 16 + u % 16 && u / 0x1000 < 16
  {
    assert u / 0x10 / 0x10 == u / 0x100 && u / 0x100 / 0x10 == u / 0x1000;
  }

  /** Four digits are read as their number, and only four digits are. */
  lemma QuadHexExactly(s: string, u: nat)
    ensures QuadHex(s) == Ok(u, if |s| >= 4 then s[4..] else "") <==> |s| >= 4 && HexText(s[..4], u)
  {
    hide DigitIs; hide HexDigit;
    if |s| >= 4 {
      var a, b, c, d := HexDigit(s[0]), HexDigit(s[1]), HexDigit(s[2]), HexDigit(s[3]);
      if a >= 0 && b >= 0 && c >= 0 && d >= 0 {
        FourDigits(a, b, c, d);
        DigitRead(s[0], a);
        DigitRead(s[1], b);
        DigitRead(s[2], c);
        DigitRead(s[3], d);
      }
      if u < 0x10000 {
        HexNumber(u);
        DigitRead(s[0], u / 0x1000);
        DigitRead(s[1], u / 0x100 % 16);
        DigitRead(s[2], u / 0x10 % 16);
        DigitRead(s[3], u % 16);
      }
    }
  }

  lemma HexRead(t: string, u: nat, s: string)
    requires HexText(t, u)
    ensures QuadHex(t + s) == Ok(u, s)
  {
    hide HexText; hide QuadHex;
    HexLength(t, u);
    assert (t + s)[..4] == t && (t + s)[4..] == s;
    QuadHexExactly(t + s, u);
  }

  lemma HexLength(t: string, u: nat)
    requires HexText(t, u)
    ensures |t| == 4 && u < 0x10000
  {
  }

  lemma LetterRead(l: char)
    ensures Unescape(l).Some? <==> l in ShortEscapes()
    ensures l in ShortEscapes() ==> Unescape(l).value as int == ShortEscapes()[l]
    ensures 'u' !in ShortEscapes()
  {
  }

  lemma DigitsRead(t: string, u: nat, s: string, acc: string)
    requires HexText(t, u) && Scalar(u)
    ensures ParseString("\\u" + t + s, acc) == ParseString(s, acc + Utf8(u))
  {
    hide QuadHex; hide HexText; hide Utf8;
    var x := "\\u" + t + s;
    assert x[2..] == t + s;
    HexRead(t, u, s);
    HexLength(t, u);
    assert CodePoint(t + s) == Ok(Utf8(u), s);
  }

  lemma PairRead(t: string, high: nat, t': string, low: nat, s: string, acc: string)
    requires HexText(t, high) && HexText(t', low) && 0xd800 <= high < 0xdc00 <= low < 0xe000
    ensures Scalar(PairPoint(high, low))
    ensures ParseString("\\u" + t + "\\u" + t' + s, acc) == ParseString(s, acc + Utf8(PairPoint(high, low)))
  {
    hide QuadHex; hide HexText; hide Utf8;
    var r := "\\u" + t' + s;
    var x := "\\u" + t + "\\u" + t' + s;
    assert x[2..] == t + r && r[2..] == t' + s;
    HexRead(t, high, r);
    HexRead(t', low, s);
    assert CodePoint(t + r) == Ok(Utf8(PairPoint(high, low)), s);
  }

  /** A piece is read as the bytes that it stands for. */
  lemma PieceRead(p: Piece, b: string, s: string, acc: string)
    requires PieceOk(p) && StandsFor(p, b)
    ensures ParseString(PieceText(p) + s, acc) == ParseString(s, acc + b)
  {
    match p
    case Plain(x) =>
      assert ([x] + s)[1..] == s;
    case Short(l) =>
      LetterRead(l);
      assert (['\\', l] + s)[2..] == s;
      assert b == [Unescape(l).value];
    case Digits(t, u) =>
      hide ParseString; hide HexText; hide Utf8; hide DecodeUtf8;
      Utf8Unique(b, u);
      DigitsRead(t, u, s, acc);
    case Pair(t, high, t', low) =>
      hide ParseString; hide HexText; hide Utf8; hide DecodeUtf8;
      Utf8Unique(b, PairPoint(high, low));
      PairRead(t, high, t', low, s, acc);
  }

  /** Strings of this grammar are read as what they spell. */
  lemma {:induction false} PiecesRead(ps: seq<Piece>, v: string, s: string, acc: string)
    requires PiecesOk(ps) && Spells(ps, v)
    ensures ParseString(PiecesText(ps) + "\"" + s, acc) == Ok(acc + v, s)
    decreases |ps|
  {
    hide ParseString; hide PieceOk; hide PieceText; hide StandsFor;
    if ps == [] {
      assert PiecesText(ps) + "\"" + s == "\"" + s;
      QuoteEnds(s, acc);
      assert acc + v == acc;
    } else {
      var k: nat :| k <= |v| && StandsFor(ps[0], v[..k]) && Spells(ps[1..], v[k..]);
      var rest := PiecesText(ps[1..]) + "\"" + s;
      assert PiecesText(ps) + "\"" + s == PieceText(ps[0]) + rest;
      PieceRead(ps[0], v[..k], rest, acc);
      PiecesRead(ps[1..], v[k..], s, acc + v[..k]);
      assert acc + v[..k] + v[k..] == acc + v;
    }
  }

  lemma QuoteEnds(s: string, acc: string)
    ensures ParseString("\"" + s, acc) == Ok(acc, s)
  {
    assert ("\"" + s)[1..] == s;
  }

  // ----- and nothing else is

  lemma HexOf(s: string, u: nat, r: string)
    requires QuadHex(s) == Ok(u, r)
    ensures |s| >= 4 && HexText(s[..4], u) && s == s[..4] + r
  {
    hide HexText;
    assert r == s[4..];
    QuadHexExactly(s, u);
  }

  /** What starts a string that is read is a piece, or the closing quote. */
  lemma FirstPiece(s: string, acc: string) returns (p: Piece, b: string, r: string)
    requires ParseString(s, acc).Ok? && s[0] != '\"'
    ensures PieceOk(p) && StandsFor(p, b) && s == PieceText(p) + r && |r| < |s|
    ensures ParseString(s, acc) == ParseString(r, acc + b)
  {
    if s[0] != '\\' {
      p, b, r := Plain(s[0]), [s[0]], s[1..];
    } else if s[1] != 'u' {
      LetterRead(s[1]);
      p, b, r := Short(s[1]), [Unescape(s[1]).value], s[2..];
    } else {
      p, b, r := CodePiece(s[2..]);
      assert s == "\\u" + s[2..];
    }
  }

  lemma CodePiece(s: string) returns (p: Piece, b: string, r: string)
    requires CodePoint(s).Ok?
    ensures PieceOk(p) && StandsFor(p, b) && "\\u" + s == PieceText(p) + r && CodePoint(s) == Ok(b, r)
  {
    hide HexText; hide Utf8; hide DecodeUtf8; hide QuadHex;
    var u, t := QuadHex(s).value, QuadHex(s).rest;
    HexOf(s, u, t);
    b, r := CodePoint(s).value, CodePoint(s).rest;
    if u < 0xd800 || u > 0xdfff {
      p := Digits(s[..4], u);
      Utf8Decodes(u);
    } else {
      var low := QuadHex(t[2..]).value;
      HexOf(t[2..], low, r);
      p := Pair(s[..4], u, t[2..][..4], low);
      Utf8Decodes(PairPoint(u, low));
      assert t == "\\u" + t[2..];
    }
  }

  lemma NotEmpty(s: string, acc: string)
    requires ParseString(s, acc).Ok?
    ensures |s| > 0
  {
  }

  lemma NoPieces(s: string, acc: string)
    requires |s| > 0 && s[0] == '\"'
    ensures PiecesOk([]) && Spells([], "") && s == PiecesText([]) + "\"" + s[1..]
    ensures ParseString(s, acc) == Ok(acc + "", s[1..])
  {
    assert s == "\"" + s[1..];
    assert acc + "" == acc;
  }

  /** A string that is read is one of this grammar, and is read as what it spells. */
  lemma {:induction false} StringHasPieces(s: string, acc: string) returns (ps: seq<Piece>, v: string)
    requires ParseString(s, acc).Ok?
    ensures PiecesOk(ps) && Spells(ps, v)
    ensures s == PiecesText(ps) + "\"" + ParseString(s, acc).rest && ParseString(s, acc).value == acc + v
    decreases |s|
  {
    hide *;
    NotEmpty(s, acc);
    if s[0] == '\"' {
      ps, v := [], "";
      NoPieces(s, acc);
    } else {
      var p, b, r := FirstPiece(s, acc);
      var ps', v' := StringHasPieces(r, acc + b);
      ps, v := [p] + ps', b + v';
      SpellsMore(p, b, ps', v');
      PiecesMore(p, ps', r, s, ParseString(s, acc).rest);
      assert acc + b + v' == acc + (b + v');
    }
  }

  lemma SpellsMore(p: Piece, b: string, ps: seq<Piece>, v: string)
    requires PieceOk(p) && StandsFor(p, b) && PiecesOk(ps) && Spells(ps, v)
    ensures PiecesOk([p] + ps) && Spells([p] + ps, b + v)
  {
    hide StandsFor; hide PieceOk;
    assert ([p] + ps)[1..] == ps && (b + v)[..|b|] == b && (b + v)[|b|..] == v;
  }

  lemma PiecesMore(p: Piece, ps: seq<Piece>, r: string, s: string, end: string)
    requires s == PieceText(p) + r && r == PiecesText(ps) + "\"" + end
    ensures s == PiecesText([p] + ps) + "\"" + end
  {
    assert ([p] + ps)[1..] == ps;
    hide PieceText;
  }

  // ----- what the printer writes

  lemma LowerDigit(d: nat)
    requires d < 16
    ensures HEX[d] == LOWER_DIGITS[d] && DigitIs(HEX[d], d)
  {
  }

  lemma ControlDigits(n: nat)
    requires n < 128
    ensures HexText("00" + [HEX[n / 16], HEX[n % 16]], n)
    ensures forall i :: 0 <= i < 4 ==> ("00" + [HEX[n / 16], HEX[n % 16]])[i] in LOWER_DIGITS
  {
    LowerDigit(0);
    LowerDigit(n / 16);
    LowerDigit(n % 16);
    assert HEX[0] == '0';
    hide HEX; hide LOWER_DIGITS;
    var t := "00" + [HEX[n / 16], HEX[n % 16]];
    assert t[0] == '0' && t[1] == '0' && t[2] == HEX[n / 16] && t[3] == HEX[n % 16];
    assert n / 0x1000 == 0 && n / 0x100 == 0 && n / 0x10 % 16 == n / 16;
  }

  lemma ShortEscape(x: char) returns (p: Piece)
    requires x as int in {0x22, 0x5c, 0x2f, 0x08, 0x0c, 0x0a, 0x0d, 0x09}
    ensures p.Short? && PieceOk(p) && EscapeChar(x) == PieceText(p) && ShortEscapes()[p.letter] == x as int
  {
    p := Short(EscapeChar(x)[1]);
  }

  lemma ControlEscape(x: char) returns (p: Piece)
    requires x as int !in {0x08, 0x0c, 0x0a, 0x0d, 0x09} && (x as int < 0x20 || x as int == 0x7f)
    ensures p.Digits? && p.u == x as int && PieceOk(p) && EscapeChar(x) == PieceText(p)
    ensures forall i :: 0 <= i < |p.t| ==> p.t[i] in LOWER_DIGITS
  {
    var n := x as int;
    var t := "00" + [HEX[n / 16], HEX[n % 16]];
    assert EscapeChar(x) == "\\u00" + [HEX[n / 16], HEX[n % 16]];
    assert "\\u00" + [HEX[n / 16], HEX[n % 16]] == "\\u" + t;
    ControlDigits(n);
    hide HexText; hide LOWER_DIGITS; hide EscapeChar; hide HEX;
    p := Digits(t, n);
  }

  /** Characters with a short escape get it, other control characters and 127 their code with
      lower-case digits, and all others stay as they are. */
  lemma EscapeMeans(x: char) returns (p: Piece)
    ensures PieceOk(p) && EscapeChar(x) == PieceText(p)
    ensures var n := x as int;
            if n in {0x22, 0x5c, 0x2f, 0x08, 0x0c, 0x0a, 0x0d, 0x09} then
              p.Short? && ShortEscapes()[p.letter] == n
            else if n < 0x20 || n == 0x7f then
              p.Digits? && p.u == n && forall i :: 0 <= i < |p.t| ==> p.t[i] in LOWER_DIGITS
            else p == Plain(x)
  {
    hide HexText; hide HEX; hide LOWER_DIGITS; hide ShortEscapes;
    var n := x as int;
    if n in {0x22, 0x5c, 0x2f, 0x08, 0x0c, 0x0a, 0x0d, 0x09} {
      hide PieceOk; hide PieceText; hide EscapeChar;
      p := ShortEscape(x);
    } else if n < 0x20 || n == 0x7f {
      hide PieceOk; hide PieceText; hide EscapeChar;
      p := ControlEscape(x);
    } else {
      p := Plain(x);
    }
  }
}
