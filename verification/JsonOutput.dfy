/**
 The printer as it runs: characters, indentation and separators appended one after
 another to the output.
 */
module JsonOutput {
  import opened JsonText

  method SerializeStr(s: string) returns (out: string)
    ensures out == Quote(s)
  {
    out := "\"";
    assert out + Escape(s[0..]) + "\"" == Quote(s);
    for i := 0 to |s|
      invariant out + Escape(s[i..]) + "\"" == Quote(s)
    {
      assert s[i..][1..] == s[i + 1..];
      out := out + EscapeChar(s[i]);
    }
    out := out + "\"";
  }

  method Indent(indent: nat) returns (out: string)
    ensures out == Break(indent)
  {
    out := "\n";
    for i := 0 to indent * INDENT_WIDTH
      invariant out == "\n" + Spaces(i)
    {
      out := out + " ";
    }
  }

  /** What is still to be printed of a list when i of its elements are out. */
  ghost function ItemsLeft<N>(c: Codec<N>, items: seq<Tree<N>>, i: nat, indent: int): string
    requires i <= |items|
  {
    if i == 0 then PrintItems(c, items, indent) else PrintMoreItems(c, items[i..], indent)
  }

  lemma NextItem<N>(c: Codec<N>, items: seq<Tree<N>>, i: nat, indent: int, out: string)
    requires i < |items|
    ensures out + ItemsLeft(c, items, i, indent)
         == out + (if i == 0 then "" else ",") + Break(indent) + Print(c, items[i], indent) + ItemsLeft(c, items, i + 1, indent)
  {
    hide Break; hide Print;
    assert items[i..][1..] == items[i + 1..];
    var sep, rest := if i == 0 then "" else ",", ItemsLeft(c, items, i + 1, indent);
    assert ItemsLeft(c, items, i, indent) == sep + Break(indent) + Print(c, items[i], indent) + rest;
  }

  ghost function FieldsLeft<N>(c: Codec<N>, fields: seq<(string, Tree<N>)>, i: nat, indent: int): string
    requires i <= |fields|
  {
    if i == 0 then PrintFields(c, fields, indent) else PrintMoreFields(c, fields[i..], indent)
  }

  lemma NextField<N>(c: Codec<N>, fields: seq<(string, Tree<N>)>, i: nat, indent: int, out: string)
    requires i < |fields|
    ensures out + FieldsLeft(c, fields, i, indent)
         == out + (if i == 0 then "" else ",") + PrintField(c, fields[i], indent) + FieldsLeft(c, fields, i + 1, indent)
  {
    hide PrintField;
    assert fields[i..][1..] == fields[i + 1..];
    var sep, rest := if i == 0 then "" else ",", FieldsLeft(c, fields, i + 1, indent);
    assert FieldsLeft(c, fields, i, indent) == sep + PrintField(c, fields[i], indent) + rest;
  }

  lemma NothingLeft<N>(c: Codec<N>, items: seq<Tree<N>>, fields: seq<(string, Tree<N>)>, indent: int)
    ensures ItemsLeft(c, items, |items|, indent) == "" && FieldsLeft(c, fields, |fields|, indent) == ""
  {
  }

  method SerializeItems<N>(c: Codec<N>, items: seq<Tree<N>>, indent: int) returns (out: string)
    requires indent >= -1 && indent != 0
    ensures out == PrintItems(c, items, indent)
    decreases items, 0
  {
    hide Break; hide Print; hide PrintItems;
    out := "";
    ghost var all := PrintItems(c, items, indent);
    assert "" + ItemsLeft(c, items, 0, indent) == all;
    for i := 0 to |items|
      invariant out + ItemsLeft(c, items, i, indent) == all
    {
      NextItem(c, items, i, indent, out);
      hide ItemsLeft;
      ghost var out0 := out;
      if i != 0 {
        out := out + ",";
      }
      var b := BreakText(indent);
      var text := SerializeTree(c, items[i], indent);
      assert text + "" == text;
      out := out + b + text;
      assert out0 + "" == out0;
    }
    NothingLeft(c, items, [], indent);
  }

  /** A line break in the prettified form. */
  method BreakText(indent: int) returns (out: string)
    ensures out == Break(indent)
  {
    out := "";
    if indent >= 0 {
      out := Indent(indent);
    }
  }

  method SerializeFields<N>(c: Codec<N>, fields: seq<(string, Tree<N>)>, indent: int) returns (out: string)
    requires indent >= -1 && indent != 0
    ensures out == PrintFields(c, fields, indent)
    decreases fields, 3
  {
    hide Break; hide Print; hide PrintFields; hide PrintField;
    out := "";
    ghost var all := PrintFields(c, fields, indent);
    assert "" + FieldsLeft(c, fields, 0, indent) == all;
    for i := 0 to |fields|
      invariant out + FieldsLeft(c, fields, i, indent) == all
    {
      NextField(c, fields, i, indent, out);
      hide FieldsLeft;
      ghost var out0 := out;
      if i != 0 {
        out := out + ",";
      }
      var text := SerializeField(c, fields[i], indent);
      out := out + text;
      assert out0 + "" == out0;
    }
    NothingLeft(c, [], fields, indent);
  }

  method SerializeField<N>(c: Codec<N>, f: (string, Tree<N>), indent: int) returns (out: string)
    requires indent >= -1 && indent != 0
    ensures out == PrintField(c, f, indent)
    decreases f, 2
  {
    hide Break; hide Print; hide Quote;
    out := BreakText(indent);
    var key := SerializeStr(f.0);
    out := out + key + ":";
    if indent >= 0 {
      out := out + " ";
    }
    var text := SerializeTree(c, f.1, indent);
    assert text + "" == text;
    out := out + text;
  }

  /** Indentation -1 is the compact form, 0 the outermost level of the prettified one. */
  method SerializeTree<N>(c: Codec<N>, t: Tree<N>, indent: int) returns (out: string)
    requires indent >= -1
    ensures out == Print(c, t, indent) + if indent == 0 then "\n" else ""
    decreases t, 1
  {
    hide PrintItems; hide PrintFields; hide Quote;
    match t {
      case TNull => out := "null";
      case TBool(b) => out := if b then "true" else "false";
      case TNumber(n) => out := c.show(n);
      case TStr(s) => out := SerializeStr(s);
      case TArray(items) =>
        var body := SerializeItems(c, items, Inner(indent));
        var last := "";
        if |items| != 0 {
          last := BreakText(indent);
        }
        out := "[" + body + last + "]";
      case TObject(fields) =>
        var body := SerializeFields(c, fields, Inner(indent));
        var last := "";
        if |fields| != 0 {
          last := BreakText(indent);
        }
        out := "{" + body + last + "}";
    }
    if indent == 0 {
      out := out + "\n";
    } else {
      assert out + "" == out;
    }
  }

  method SerializeDocument<N>(c: Codec<N>, t: Tree<N>, prettify: bool) returns (out: string)
    ensures out == Serialize(c, t, prettify)
  {
    out := SerializeTree(c, t, if prettify then 0 else -1);
  }
}
