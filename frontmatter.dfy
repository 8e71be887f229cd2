/** The `---`-delimited frontmatter the Python converters write in front of a Markdown body:
    an opening `---` line, one or more lines per field in order, a closing `---` line and an
    empty line. JSON encoding (`json.dumps`) and Python `str()` of non-string values are
    functions the caller supplies. */
module Frontmatter {
  import opened Text
  import opened Json
  import Seqs

  type Field = (String, Value)

  /** `f"{key}: {json.dumps(value)}"`. */
  function ScalarLine(key: String, v: Value, dumps: Value -> String): String {
    key + ": " + dumps(v)
  }

  function ScalarLines(fields: seq<Field>, dumps: Value -> String): (r: seq<String>)
    ensures |r| == |fields|
    ensures forall i :: 0 <= i < |fields| ==> r[i] == ScalarLine(fields[i].0, fields[i].1, dumps)
  {
    if fields == [] then []
    else [ScalarLine(fields[0].0, fields[0].1, dumps)] + ScalarLines(fields[1..], dumps)
  }

  function Framed(lines: seq<String>): String {
    Unlines(["---"] + lines + ["---", ""])
  }

  /** The block written by the scrape converter and by the page converter, where every value
      goes through `json.dumps`. */
  function ScalarBlock(fields: seq<Field>, dumps: Value -> String): String {
    Framed(ScalarLines(fields, dumps))
  }

  /** The lines of one field in a post's frontmatter: a list becomes `key:` and one `  - item`
      line per item, anything else one `key: json` line. */
  function PostLines(key: String, v: Value, dumps: Value -> String, repr: Value -> String)
    : seq<String>
  {
    if v.List? then [key + ":"] + ItemLines(v.items, repr) else [ScalarLine(key, v, dumps)]
  }

  function ItemLines(items: seq<Value>, repr: Value -> String): (r: seq<String>)
    ensures |r| == |items| && forall i :: 0 <= i < |items| ==> r[i] == "  - " + PyStr(items[i], repr)
  {
    if items == [] then [] else ["  - " + PyStr(items[0], repr)] + ItemLines(items[1..], repr)
  }

  function AllPostLines(fields: seq<Field>, dumps: Value -> String, repr: Value -> String)
    : seq<String>
  {
    if fields == [] then []
    else PostLines(fields[0].0, fields[0].1, dumps, repr) + AllPostLines(fields[1..], dumps, repr)
  }

  /** The block written by the post converter. */
  function PostBlock(fields: seq<Field>, dumps: Value -> String, repr: Value -> String): String {
    Framed(AllPostLines(fields, dumps, repr))
  }

  /** The loop `astro_content += f"{key}: {json.dumps(value)}\n"` between the delimiters. */
  method WriteScalarBlock(fields: seq<Field>, dumps: Value -> String) returns (text: String)
    ensures text == ScalarBlock(fields, dumps)
  {
    text := "---\n";
    assert text == "---\n" + Unlines(ScalarLines(fields[..0], dumps));
    for i := 0 to |fields|
      invariant text == "---\n" + Unlines(ScalarLines(fields[..i], dumps))
    {
      var (key, value) := fields[i];
      text := text + ScalarLine(key, value, dumps) + "\n";
      ScalarBlockStep(fields, i, dumps);
    }
    assert fields[..|fields|] == fields;
    text := text + "---\n\n";
    FramedText(ScalarLines(fields, dumps));
  }

  /** The post converter's loop, with its inner loop over the items of a list value. */
  method WritePostBlock(fields: seq<Field>, dumps: Value -> String, repr: Value -> String)
    returns (text: String)
    ensures text == PostBlock(fields, dumps, repr)
  {
    text := "---\n";
    assert text == "---\n" + Unlines(AllPostLines(fields[..0], dumps, repr));
    for i := 0 to |fields|
      invariant text == "---\n" + Unlines(AllPostLines(fields[..i], dumps, repr))
    {
      var (key, value) := fields[i];
      var entry := WriteEntry(key, value, dumps, repr);
      text := text + entry;
      PostBlockStep(fields, i, dumps, repr);
    }
    assert fields[..|fields|] == fields;
    text := text + "---\n\n";
    FramedText(AllPostLines(fields, dumps, repr));
  }

  /** The opening line, the lines, the closing line and an empty line. */
  lemma FramedText(lines: seq<String>)
    ensures "---\n" + Unlines(lines) + "---\n\n" == Framed(lines)
  {
    assert Unlines(["---", ""]) == "---\n\n";
    UnlinesFramed("---", lines, ["---", ""]);
  }

  lemma ScalarBlockStep(fields: seq<Field>, i: nat, dumps: Value -> String)
    requires i < |fields|
    ensures "---\n" + Unlines(ScalarLines(fields[..i], dumps)) + ScalarLine(fields[i].0, fields[i].1, dumps) + "\n"
            == "---\n" + Unlines(ScalarLines(fields[..i + 1], dumps))
  {
    UnlinesSnoc("---\n", ScalarLines(fields[..i], dumps), ScalarLine(fields[i].0, fields[i].1, dumps));
    assert fields[..i + 1] == fields[..i] + [fields[i]];
    ScalarLinesSnoc(fields[..i], fields[i], dumps);
  }

  lemma PostBlockStep(fields: seq<Field>, i: nat, dumps: Value -> String, repr: Value -> String)
    requires i < |fields|
    ensures "---\n" + Unlines(AllPostLines(fields[..i], dumps, repr)) + Unlines(PostLines(fields[i].0, fields[i].1, dumps, repr))
            == "---\n" + Unlines(AllPostLines(fields[..i + 1], dumps, repr))
  {
    UnlinesConcat("---\n", AllPostLines(fields[..i], dumps, repr), PostLines(fields[i].0, fields[i].1, dumps, repr));
    assert fields[..i + 1] == fields[..i] + [fields[i]];
    AllPostLinesSnoc(fields[..i], fields[i], dumps, repr);
  }

  /** One pass of the post converter's loop body. */
  method WriteEntry(key: String, value: Value, dumps: Value -> String, repr: Value -> String)
    returns (text: String)
    ensures text == Unlines(PostLines(key, value, dumps, repr))
  {
    if value.List? {
      var items := WriteItems(value.items, repr);
      text := key + ":\n" + items;
      UnlinesFramed(key + ":", ItemLines(value.items, repr), []);
      assert key + ":\n" == key + ":" + "\n";
      assert Unlines(ItemLines(value.items, repr)) + Unlines([]) == items;
    } else {
      text := ScalarLine(key, value, dumps) + "\n";
      assert Unlines([ScalarLine(key, value, dumps)]) == ScalarLine(key, value, dumps) + "\n";
    }
  }

  /** The inner loop `astro_content += f"  - {item}\n"`. */
  method WriteItems(items: seq<Value>, repr: Value -> String) returns (text: String)
    ensures text == Unlines(ItemLines(items, repr))
  {
    text := "";
    for j := 0 to |items|
      invariant text == Unlines(ItemLines(items[..j], repr))
    {
      var line := "  - " + PyStr(items[j], repr);
      ghost var done := ItemLines(items[..j], repr);
      text := text + line + "\n";
      UnlinesSnoc([], done, line);
      assert [] + Unlines(done) == Unlines(done);
      assert items[..j + 1] == items[..j] + [items[j]];
      ItemLinesSnoc(items[..j], items[j], repr);
    }
    assert items[..|items|] == items;
  }

  lemma {:induction false} ScalarLinesSnoc(fields: seq<Field>, f: Field, dumps: Value -> String)
    ensures ScalarLines(fields + [f], dumps) == ScalarLines(fields, dumps) + [ScalarLine(f.0, f.1, dumps)]
  {
    if fields == [] {
      assert fields + [f] == [f];
    } else {
      assert (fields + [f])[1..] == fields[1..] + [f];
      ScalarLinesSnoc(fields[1..], f, dumps);
    }
  }

  lemma {:induction false} ItemLinesSnoc(items: seq<Value>, x: Value, repr: Value -> String)
    ensures ItemLines(items + [x], repr) == ItemLines(items, repr) + ["  - " + PyStr(x, repr)]
  {
    if items == [] {
      assert items + [x] == [x];
    } else {
      assert (items + [x])[1..] == items[1..] + [x];
      ItemLinesSnoc(items[1..], x, repr);
    }
  }

  lemma {:induction false} AllPostLinesSnoc(fields: seq<Field>, f: Field, dumps: Value -> String,
                                            repr: Value -> String)
    ensures AllPostLines(fields + [f], dumps, repr) ==
            AllPostLines(fields, dumps, repr) + PostLines(f.0, f.1, dumps, repr)
  {
    if fields == [] {
      assert fields + [f] == [f];
    } else {
      assert (fields + [f])[1..] == fields[1..] + [f];
      AllPostLinesSnoc(fields[1..], f, dumps, repr);
    }
  }

  lemma AllPostLinesCons(f: Field, rest: seq<Field>, dumps: Value -> String, repr: Value -> String)
    ensures AllPostLines([f] + rest, dumps, repr) ==
            PostLines(f.0, f.1, dumps, repr) + AllPostLines(rest, dumps, repr)
  {
    assert ([f] + rest)[1..] == rest;
  }

  /** Without list values the post format and the plain format are the same text. */
  lemma {:induction false} PostBlockWithoutLists(fields: seq<Field>, dumps: Value -> String,
                                                 repr: Value -> String)
    requires forall i :: 0 <= i < |fields| ==> !fields[i].1.List?
    ensures AllPostLines(fields, dumps, repr) == ScalarLines(fields, dumps)
    ensures PostBlock(fields, dumps, repr) == ScalarBlock(fields, dumps)
  {
    if fields != [] {
      PostBlockWithoutLists(fields[1..], dumps, repr);
    }
  }

  /** A document is the frontmatter block followed by the body. Read back line by line it
      is the `---` line, the field lines in order, the closing `---`, an empty line, and then
      the lines of the body, provided that no key and no encoded value holds a line feed. */
  lemma ScalarDocumentLines(fields: seq<Field>, dumps: Value -> String, body: String)
    requires forall i :: 0 <= i < |fields| ==> '\n' !in fields[i].0 && '\n' !in dumps(fields[i].1)
    ensures Split(ScalarBlock(fields, dumps) + body, '\n') ==
            ["---"] + ScalarLines(fields, dumps) + ["---", ""] + Split(body, '\n')
  {
    var ls := ["---"] + ScalarLines(fields, dumps) + ["---", ""];
    forall i | 0 <= i < |ls| ensures '\n' !in ls[i] {
      if 1 <= i <= |fields| {
        var k := i - 1;
        assert ls[i] == fields[k].0 + ": " + dumps(fields[k].1);
      }
    }
    SplitUnlines(ls, body);
  }

  /** No key, encoded value or item text holds a line feed. */
  predicate OneLineEach(fields: seq<Field>, dumps: Value -> String, repr: Value -> String) {
    forall i :: 0 <= i < |fields| ==>
      && '\n' !in fields[i].0
      && (!fields[i].1.List? ==> '\n' !in dumps(fields[i].1))
      && (fields[i].1.List? ==>
            forall k :: 0 <= k < |fields[i].1.items| ==> '\n' !in PyStr(fields[i].1.items[k], repr))
  }

  lemma {:induction false} AllPostLinesOneLine(fields: seq<Field>, dumps: Value -> String,
                                               repr: Value -> String)
    requires OneLineEach(fields, dumps, repr)
    ensures forall i :: 0 <= i < |AllPostLines(fields, dumps, repr)| ==>
              '\n' !in AllPostLines(fields, dumps, repr)[i]
  {
    if fields != [] {
      var (key, v) := fields[0];
      assert OneLineEach(fields[1..], dumps, repr) by {
        forall i | 0 <= i < |fields| - 1 ensures fields[1..][i] == fields[i + 1] { }
      }
      AllPostLinesOneLine(fields[1..], dumps, repr);
      var head := PostLines(key, v, dumps, repr);
      var rest := AllPostLines(fields[1..], dumps, repr);
      forall i | 0 <= i < |head| ensures '\n' !in head[i] {
        if v.List? && i > 0 {
          assert head[i] == "  - " + PyStr(v.items[i - 1], repr);
        } else {
          assert head[i] == (if v.List? then key + ":" else key + ": " + dumps(v));
        }
      }
      assert AllPostLines(fields, dumps, repr) == head + rest;
    }
  }

  /** Read back line by line, a post document is the `---` line, then per field either its
      `key: json` line or its `key:` line followed by one `  - item` line per list item, then
      the closing `---`, an empty line and the lines of the body. */
  lemma PostDocumentLines(fields: seq<Field>, dumps: Value -> String, repr: Value -> String,
                          body: String)
    requires OneLineEach(fields, dumps, repr)
    ensures Split(PostBlock(fields, dumps, repr) + body, '\n') ==
            ["---"] + AllPostLines(fields, dumps, repr) + ["---", ""] + Split(body, '\n')
  {
    var ps := AllPostLines(fields, dumps, repr);
    AllPostLinesOneLine(fields, dumps, repr);
    var ls := ["---"] + ps + ["---", ""];
    forall i | 0 <= i < |ls| ensures '\n' !in ls[i] {
      if 1 <= i <= |ps| { assert ls[i] == ps[i - 1]; }
    }
    SplitUnlines(ls, body);
  }
}
