/**
 The cursor with one character of pushback, and the parser that drives it.
 */
module JsonInput {
  import opened Wrappers
  import opened JsonText

  function Newlines(s: string): nat {
    if |s| == 0 then 0 else Newlines(s[..|s| - 1]) + if s[|s| - 1] == '\n' then 1 else 0
  }

  lemma NewlinesNext(s: string, k: nat)
    requires k < |s|
    ensures Newlines(s[..k + 1]) == Newlines(s[..k]) + if s[k] == '\n' then 1 else 0
  {
    assert s[..k + 1][..k] == s[..k];
  }

  lemma SkipTwice(s: string)
    ensures SkipSpace(SkipSpace(s)) == SkipSpace(s)
  {
  }

  class Input {
    const text: string
    var cur: nat
    var consumed: bool
    var line: nat

    /** The line number counts the line breaks that have been passed. */
    ghost predicate Valid()
      reads this
    {
      cur <= |text| && (consumed ==> cur < |text|) && line == 1 + Newlines(text[..cur])
    }

    /** The text that has not been read. */
    ghost function Rest(): string
      requires Valid()
      reads this
    {
      text[if consumed then cur + 1 else cur..]
    }

    constructor (text: string)
      ensures Valid() && Rest() == text
    {
      this.text := text;
      cur, consumed, line := 0, false, 1;
    }

    method Getc() returns (ch: int)
      requires Valid()
      modifies this
      ensures Valid() && consumed == (|old(Rest())| > 0)
      ensures |old(Rest())| == 0 ==> ch == -1 && Rest() == ""
      ensures |old(Rest())| > 0 ==>
                ch == old(Rest())[0] as int && Rest() == old(Rest())[1..] && text[cur..] == old(Rest())
    {
      hide Newlines;
      if consumed {
        NewlinesNext(text, cur);
        if text[cur] == '\n' {
          line := line + 1;
        }
        cur := cur + 1;
      }
      if cur == |text| {
        consumed := false;
        return -1;
      }
      consumed := true;
      return text[cur] as int;
    }

    /** Put the last character back. */
    method Ungetc()
      requires Valid()
      modifies this
      ensures Valid() && !consumed && Rest() == old(text[cur..])
    {
      consumed := false;
    }

    method SkipWs()
      requires Valid()
      modifies this
      ensures Valid() && Rest() == SkipSpace(old(Rest()))
    {
      hide Newlines;
      ghost var s := Rest();
      while true
        invariant Valid() && SkipSpace(Rest()) == SkipSpace(s)
        decreases |Rest()|
      {
        var ch := Getc();
        if !(ch == ' ' as int || ch == '\t' as int || ch == '\n' as int || ch == '\r' as int) {
          Ungetc();
          break;
        }
      }
    }

    method Expect(expected: char) returns (ok: bool)
      requires Valid()
      modifies this
      ensures Valid()
      ensures match JsonText.Expect(old(Rest()), expected)
              case Some(r) => ok && Rest() == r
              case None => !ok && Rest() == SkipSpace(old(Rest()))
    {
      hide Newlines; hide SkipSpace;
      SkipWs();
      var ch := Getc();
      if ch != expected as int {
        Ungetc();
        return false;
      }
      return true;
    }

    method Match(word: string) returns (ok: bool)
      requires Valid()
      modifies this
      ensures Valid()
      ensures match JsonText.Match(old(Rest()), word)
              case Some(r) => ok && Rest() == r
              case None => !ok
    {
      hide Newlines;
      ghost var s := Rest();
      for i := 0 to |word|
        invariant Valid() && i <= |s| && word[..i] == s[..i] && Rest() == s[i..]
      {
        var ch := Getc();
        if ch != word[i] as int {
          Ungetc();
          return false;
        }
      }
      assert word[..|word|] == word;
      return true;
    }

    method ReadQuadHex() returns (u: int)
      requires Valid()
      modifies this
      ensures Valid()
      ensures match QuadHex(old(Rest()))
              case Ok(v, r) => u == v && Rest() == r
              case Fail => u == -1
    {
      hide Newlines; hide HexDigit;
      ghost var s := Rest();
      u := 0;
      for i := 0 to 4
        invariant Valid() && i <= |s| && Rest() == s[i..] && u >= 0
        invariant forall k :: 0 <= k < i ==> HexDigit(s[k]) >= 0
        invariant i == 0 ==> u == 0
        invariant i == 1 ==> u == HexDigit(s[0])
        invariant i == 2 ==> u == HexDigit(s[0]) * 16 + HexDigit(s[1])
        invariant i == 3 ==> u == (HexDigit(s[0]) * 16 + HexDigit(s[1])) * 16 + HexDigit(s[2])
        invariant i == 4 ==> u == ((HexDigit(s[0]) * 16 + HexDigit(s[1])) * 16 + HexDigit(s[2])) * 16 + HexDigit(s[3])
      {
        var ch := Getc();
        if ch == -1 {
          return -1;
        }
        var hex := HexDigit(ch as char);
        if hex < 0 {
          Ungetc();
          return -1;
        }
        u := u * 16 + hex;
      }
    }

    method ReadCodePoint() returns (ok: bool, bytes: string)
      requires Valid()
      modifies this
      ensures Valid()
      ensures match CodePoint(old(Rest()))
              case Ok(b, r) => ok && bytes == b && Rest() == r
              case Fail => !ok
    {
      hide Newlines; hide QuadHex; hide Utf8;
      bytes := "";
      var u := ReadQuadHex();
      if u == -1 {
        return false, "";
      }
      if 0xd800 <= u <= 0xdfff {
        if 0xdc00 <= u {
          return false, "";
        }
        var ch := Getc();
        if ch != '\\' as int {
          Ungetc();
          return false, "";
        }
        ch := Getc();
        if ch != 'u' as int {
          Ungetc();
          return false, "";
        }
        var second := ReadQuadHex();
        if !(0xdc00 <= second <= 0xdfff) {
          return false, "";
        }
        u := (u - 0xd800) * 0x400 + (second - 0xdc00);
        u := u + 0x10000;
      }
      return true, Utf8(u);
    }

    method ReadString() returns (ok: bool, out: string)
      requires Valid()
      modifies this
      ensures Valid()
      ensures match ParseString(old(Rest()), "")
              case Ok(v, r) => ok && out == v && Rest() == r
              case Fail => !ok
    {
      hide Newlines; hide CodePoint; hide Unescape;
      ghost var s := Rest();
      out := "";
      while true
        invariant Valid() && ParseString(Rest(), out) == ParseString(s, "")
        decreases |Rest()|
      {
        ghost var here := Rest();
        var ch := Getc();
        if ch < ' ' as int {
          Ungetc();
          return false, out;
        } else if ch == '\"' as int {
          return true, out;
        } else if ch == '\\' as int {
          ch := Getc();
          if ch == -1 {
            return false, out;
          }
          assert here[2..] == Rest() && here[1] as int == ch;
          if ch == 'u' as int {
            var good, bytes := ReadCodePoint();
            if !good {
              return false, out;
            }
            out := out + bytes;
          } else {
            var x := Unescape(ch as char);
            if x.None? {
              return false, out;
            }
            out := out + [x.value];
          }
        } else {
          out := out + [ch as char];
        }
      }
    }

    /** The next character is what Getc returns, and whether it continues a number. */
    method GetNumeric() returns (more: bool, ch: char)
      requires Valid()
      modifies this
      ensures Valid() && more == (|old(Rest())| > 0 && IsNumeric(old(Rest())[0]))
      ensures if more then ch == old(Rest())[0] && Rest() == old(Rest())[1..] else Rest() == old(Rest())
    {
      hide Newlines; hide IsNumeric;
      var c := Getc();
      more, ch := false, ' ';
      if c != -1 && IsNumeric(c as char) {
        return true, c as char;
      }
      Ungetc();
    }

    method ReadToken() returns (token: string)
      requires Valid()
      modifies this
      ensures Valid() && token == Token(old(Rest())) && Rest() == old(Rest())[|token|..]
    {
      hide Newlines; hide Token; hide IsNumeric;
      ghost var s := Rest();
      token := "";
      while true
        invariant Valid() && |token| <= |s| && Rest() == s[|token|..] && Token(s) == token + Token(Rest())
        decreases |Rest()|
      {
        TokenNext(s, token);
        var more, ch := GetNumeric();
        if !more {
          break;
        }
        token := token + [ch];
      }
    }
  }

  /** The token goes on as long as there are number characters. */
  lemma TokenNext(s: string, token: string)
    requires |token| <= |s| && Token(s) == token + Token(s[|token|..])
    ensures var rest := s[|token|..];
            if |rest| > 0 && IsNumeric(rest[0]) then
              |token| < |s| && rest[1..] == s[|token| + 1..] && Token(s) == token + [rest[0]] + Token(rest[1..])
            else Token(s) == token
  {
    hide IsNumeric;
    var rest := s[|token|..];
    if |rest| > 0 && IsNumeric(rest[0]) {
      Join(token, [rest[0]], Token(rest[1..]));
    }
  }

  // ----- the recursive descent

  method ParseText<N>(c: Codec<N>, input: Input) returns (r: Option<Value<N>>)
    requires input.Valid()
    modifies input
    ensures input.Valid()
    ensures match ParseValue(c, old(input.Rest()))
            case Ok(v, rest) => r == Some(v) && input.Rest() == rest
            case Fail => r == None
    decreases |input.Rest()|, 2
  {
    hide Newlines; hide SkipSpace; hide ParseString; hide ParseArray; hide ParseObject; hide Token;
    input.SkipWs();
    var ch := input.Getc();
    if ch == 'n' as int {
      r := ParseLiteral(input, "ull", Null);
    } else if ch == 'f' as int {
      r := ParseLiteral(input, "alse", Bool(false));
    } else if ch == 't' as int {
      r := ParseLiteral(input, "rue", Bool(true));
    } else if ch == '\"' as int {
      var ok, s := input.ReadString();
      r := if ok then Some(Str(s)) else None;
    } else if ch == '[' as int {
      r := ParseArrayText(c, input);
    } else if ch == '{' as int {
      r := ParseObjectText(c, input);
    } else if ch != -1 && StartsNumber(ch as char) {
      input.Ungetc();
      var token := input.ReadToken();
      r := match c.read(token) case Some(n) => Some(Number(n)) case None => None;
    } else {
      input.Ungetc();
      r := None;
    }
  }

  method ParseLiteral<N>(input: Input, word: string, v: Value<N>) returns (r: Option<Value<N>>)
    requires input.Valid()
    modifies input
    ensures input.Valid()
    ensures match Literal(old(input.Rest()), word, v)
            case Ok(w, rest) => r == Some(w) && input.Rest() == rest
            case Fail => r == None
  {
    var ok := input.Match(word);
    r := if ok then Some(v) else None;
  }

  method ParseArrayText<N>(c: Codec<N>, input: Input) returns (r: Option<Value<N>>)
    requires input.Valid()
    modifies input
    ensures input.Valid()
    ensures match ParseArray(c, old(input.Rest()))
            case Ok(v, rest) => r == Some(v) && input.Rest() == rest
            case Fail => r == None
    decreases |input.Rest()|, 4
  {
    hide Newlines; hide SkipSpace; hide ParseValue; hide Expect;
    ghost var s := input.Rest();
    var closed := input.Expect(']');
    if closed {
      return Some(Array([]));
    }
    SkippedItems(c, s);
    var items := [];
    while true
      invariant input.Valid() && |input.Rest()| <= |s| && ParseArray(c, s) == ParseItems(c, input.Rest(), items)
      decreases |input.Rest()|
    {
      var v := ParseText(c, input);
      if v == None {
        return None;
      }
      items := items + [v.value];
      ghost var after := input.Rest();
      var comma := input.Expect(',');
      if !comma {
        SkipTwice(after);
        ExpectSkipped(after, ']');
        break;
      }
    }
    closed := input.Expect(']');
    r := if closed then Some(Array(items)) else None;
  }

  lemma ExpectSkipped(s: string, x: char)
    ensures Expect(SkipSpace(s), x) == Expect(s, x)
  {
    SkipTwice(s);
  }

  /** Space before the first item has already been skipped when the loop starts. */
  lemma SkippedItems<N>(c: Codec<N>, s: string)
    ensures ParseItems(c, SkipSpace(s), []) == ParseItems(c, s, [])
  {
    hide SkipSpace; hide Expect; hide ParseString; hide ParseArray; hide ParseObject; hide ParseNumber;
    SkipTwice(s);
    SameValue(c, s);
    hide ParseValue;
  }

  lemma SameValue<N>(c: Codec<N>, s: string)
    ensures ParseValue(c, SkipSpace(s)) == ParseValue(c, s)
  {
    hide SkipSpace; hide ParseString; hide ParseArray; hide ParseObject; hide ParseNumber; hide Literal;
    SkipTwice(s);
  }

  method ParseKeyText(input: Input) returns (r: Option<string>)
    requires input.Valid()
    modifies input
    ensures input.Valid()
    ensures match ParseKey(old(input.Rest()))
            case Ok(k, rest) => r == Some(k) && input.Rest() == rest
            case Fail => r == None
  {
    hide Newlines; hide SkipSpace; hide ParseString; hide Expect;
    var ok := input.Expect('\"');
    if !ok {
      return None;
    }
    var key;
    ok, key := input.ReadString();
    if !ok {
      return None;
    }
    ok := input.Expect(':');
    r := if ok then Some(key) else None;
  }

  method ParseObjectText<N>(c: Codec<N>, input: Input) returns (r: Option<Value<N>>)
    requires input.Valid()
    modifies input
    ensures input.Valid()
    ensures match ParseObject(c, old(input.Rest()))
            case Ok(v, rest) => r == Some(v) && input.Rest() == rest
            case Fail => r == None
    decreases |input.Rest()|, 4
  {
    hide Newlines; hide SkipSpace; hide ParseValue; hide Expect; hide ParseKey;
    ghost var s := input.Rest();
    var closed := input.Expect('}');
    if closed {
      return Some(Object(map[]));
    }
    SkippedFields(c, s);
    var fields := map[];
    while true
      invariant input.Valid() && |input.Rest()| <= |s| && ParseObject(c, s) == ParseFields(c, input.Rest(), fields)
      decreases |input.Rest()|
    {
      var key := ParseKeyText(input);
      if key == None {
        return None;
      }
      var v := ParseText(c, input);
      if v == None {
        return None;
      }
      fields := fields[key.value := v.value];
      ghost var after := input.Rest();
      var comma := input.Expect(',');
      if !comma {
        ExpectSkipped(after, '}');
        break;
      }
    }
    closed := input.Expect('}');
    r := if closed then Some(Object(fields)) else None;
  }

  lemma SkippedFields<N>(c: Codec<N>, s: string)
    ensures ParseFields(c, SkipSpace(s), map[]) == ParseFields(c, s, map[])
  {
    hide SkipSpace; hide Expect; hide ParseString; hide ParseValue;
    ExpectSkipped(s, '\"');
  }
}
