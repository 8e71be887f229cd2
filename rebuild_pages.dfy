/** `rebuild-pages.py`: re-scrapes a fixed list of pages of the live site and writes each as
    an Astro page around the site layout. Fetching, parsing and Python's `str.title()` are
    supplied by the caller. */
module RebuildPages {
  import opened Text
  import opened Options
  import Paths

  /** A title whose whitespace is tidy: only single plain spaces, none at either end. */
  predicate Tidy(s: String) {
    SingleSpaced(s) && (s == [] || (!IsWs(s[0]) && !IsWs(s[|s| - 1])))
  }

  const Desc: String := "description:"

  /** `re.sub(r'\s+description:\s*$', '', t)`: whitespace, `description:` and trailing
      whitespace at the very end are removed, together. */
  function DropDescription(t: String): String {
    var u := TrimRight(t);
    if |u| > 12 && EndsWith(u, Desc) && IsWs(u[|u| - 13])
    then TrimRight(u[..|u| - 12])
    else t
  }

  /** `clean_title`. */
  function CleanTitle(title: String): String {
    DropDescription(Collapse(Strip(title)))
  }

  lemma DescFacts()
    ensures |Desc| == 12 && Tidy(Desc) && forall i :: 0 <= i < |Desc| ==> !IsWs(Desc[i])
    ensures [' '] + Desc == " description:"
  {
  }

  lemma StripCollapseTidy(title: String)
    ensures Tidy(Collapse(Strip(title)))
  {
    StripCollapse(title);
    CollapseSingleSpaced(Strip(title));
  }

  /** ` description:` at the end is `description:` at the end after a space. */
  lemma EndsWithSpaceDesc(c: String)
    requires |c| > 12
    ensures EndsWith(c, " description:") <==> EndsWith(c, Desc) && c[|c| - 13] == ' '
  {
    DescFacts();
    var n := |c|;
    if n >= 13 {
      assert c[n - 13..] == [c[n - 13]] + c[n - 12..];
    }
  }

  /** On tidy text the substitution drops a final ` description:` and nothing else. */
  lemma DropDescriptionTidy(c: String)
    requires Tidy(c)
    ensures DropDescription(c) == if EndsWith(c, " description:") then c[..|c| - 13] else c
  {
    var n := |c|;
    if n > 0 { TrimRightKeeps(c); }
    if n > 12 { EndsWithSpaceDesc(c); }
    if EndsWith(c, " description:") {
      var p := c[..n - 13];
      assert c[n - 13] == ' ';
      assert n > 13 && c[n - 14] != ' ';
      assert c[..n - 12] == p + [' '];
      TrimRightSpace(p);
      assert p[|p| - 1] == c[n - 14];
      TrimRightKeeps(p);
    }
  }

  /** `clean_title` removes a single trailing ` description:` from the trimmed,
      single-spaced title; one that is not at the end is kept. */
  lemma CleanTitleSuffix(title: String)
    ensures var c := Collapse(Strip(title));
            CleanTitle(title) == if EndsWith(c, " description:") then c[..|c| - 13] else c
  {
    StripCollapseTidy(title);
    DropDescriptionTidy(Collapse(Strip(title)));
  }

  lemma TidyPrefix(c: String, k: nat)
    requires Tidy(c) && k <= |c| && (k == 0 || !IsWs(c[k - 1]))
    ensures Tidy(c[..k])
  {
    var p := c[..k];
    assert forall i :: 0 <= i < k ==> p[i] == c[i];
  }

  /** Dropping a final ` description:` from tidy text leaves tidy text. */
  lemma TidyDropSuffix(c: String)
    requires Tidy(c) && EndsWith(c, " description:")
    ensures Tidy(c[..|c| - 13])
  {
    assert c[|c| - 13] == ' ';
    assert |c| - 13 > 0;
    assert c[|c| - 14] != ' ';
    TidyPrefix(c, |c| - 13);
  }

  /** The cleaned title has no line feed, tab or doubled space, and no whitespace at either
      end. */
  lemma CleanTitleTidy(title: String)
    ensures Tidy(CleanTitle(title))
  {
    CleanTitleSuffix(title);
    StripCollapseTidy(title);
    TidyMaybeDropSuffix(Collapse(Strip(title)), CleanTitle(title));
  }

  lemma TidyMaybeDropSuffix(c: String, r: String)
    requires Tidy(c) && r == if EndsWith(c, " description:") then c[..|c| - 13] else c
    ensures Tidy(r)
  {
    if EndsWith(c, " description:") {
      TidyDropSuffix(c);
    }
  }

  /** Tidy text is its own trimmed, collapsed form. */
  lemma TidyFixed(c: String)
    requires Tidy(c)
    ensures Collapse(Strip(c)) == c
  {
    if c != [] { TrimRightKeeps(c); }
    assert TrimLeft(c) == c;
    CollapseSingleSpacedFixed(c);
  }

  /** Two tidy words joined by one space are tidy. */
  lemma TidyJoin(a: String, b: String)
    requires Tidy(a) && Tidy(b) && a != [] && b != []
    ensures Tidy(a + [' '] + b)
  {
    var s := a + [' '] + b;
    forall i | 0 <= i < |s| && IsWs(s[i]) ensures s[i] == ' ' {
      if i < |a| { assert s[i] == a[i]; } else if i > |a| { assert s[i] == b[i - |a| - 1]; }
    }
    forall i | 0 <= i < |s| - 1 && s[i] == ' ' ensures s[i + 1] != ' ' {
      if i < |a| - 1 {
        assert s[i] == a[i] && s[i + 1] == a[i + 1];
      } else if i > |a| {
        assert s[i] == b[i - |a| - 1] && s[i + 1] == b[i - |a|];
      } else if i == |a| {
        assert s[i + 1] == b[0];
      } else {
        assert false;
      }
    }
    assert s[0] == a[0] && s[|s| - 1] == b[|b| - 1];
  }

  /** A tidy title followed by ` description:` is tidy, and cleaning gives back the title. */
  lemma CleanTitleDropsOne(x: String)
    requires Tidy(x) && x != []
    ensures Tidy(x + " description:")
    ensures CleanTitle(x + " description:") == x
  {
    var y := x + " description:";
    assert Tidy(y) by {
      DescFacts();
      AppendAssoc(x, [' '], Desc);
      TidyJoin(x, Desc);
    }
    assert EndsWith(y, " description:") by {
      assert y[|y| - 13..] == " description:";
    }
    calc {
      CleanTitle(y);
      DropDescription(Collapse(Strip(y)));
      { TidyFixed(y); }
      DropDescription(y);
      { DropDescriptionTidy(y); }
      y[..|y| - 13];
    }
    assert y[..|y| - 13] == x;
  }

  /** Cleaning is not idempotent: a title ending in two ` description:` fragments loses one
      per call. */
  lemma CleanTitleNotIdempotent(x: String)
    requires Tidy(x) && x != []
    ensures CleanTitle(x + " description:" + " description:") == x + " description:"
    ensures CleanTitle(CleanTitle(x + " description:" + " description:")) == x
  {
    CleanTitleDropsOne(x);
    CleanTitleDropsOne(x + " description:");
  }

  /** Whitespace runs inside a title, a trailing `description:` after whitespace and the
      whitespace after it all disappear: the title is its collapsed words. */
  lemma CleanTitleDropsTrailingDescription(x: String, w: String, v: String)
    requires x != [] && !IsWs(x[0]) && !IsWs(x[|x| - 1])
    requires AllWs(w) && w != [] && AllWs(v)
    ensures CleanTitle(x + w + Desc + v) == Collapse(x)
  {
    DescFacts();
    var core := x + w + Desc;
    var s := core + v;
    assert Strip(s) == core by {
      assert TrimLeft(s) == s by { assert s[0] == x[0]; }
      assert core[|core| - 1] == Desc[11];
      TrimRightWsSuffix(core, v);
    }
    var cx := Collapse(x);
    assert Collapse(core) == cx + " description:" by {
      AppendAssoc(x, w, Desc);
      CollapseConcat(x, w + Desc);
      CollapseWsPrefix(w, Desc);
      CollapseSingleSpacedFixed(Desc);
      AppendAssoc(cx, [' '], Desc);
    }
    CleanTitleSuffix(s);
    var c := cx + " description:";
    assert c[|c| - 13..] == " description:";
    assert c[..|c| - 13] == cx;
  }

  /** A title split over lines, with a stray `description:` at the end, comes out as its two
      words. */
  lemma CleanTitleExample()
    ensures CleanTitle("Foo\n\n  Bar   description: ") == "Foo Bar"
  {
    var x := "Foo\n\n  Bar";
    SplitExample(x);
    CleanTitleDropsTrailingDescription(x, "   ", " ");
    CollapseExample(x);
  }

  lemma SplitExample(x: String)
    requires x == "Foo\n\n  Bar"
    ensures "Foo\n\n  Bar   description: " == x + "   " + Desc + " "
  {
  }

  lemma CollapseExample(x: String)
    requires x == "Foo\n\n  Bar"
    ensures Collapse(x) == "Foo Bar"
  {
    var w := "\n\n  ";
    assert x == "Foo" + (w + "Bar");
    WordFixed("Foo");
    WordFixed("Bar");
    assert AllWs(w) by {
      forall i | 0 <= i < |w| ensures IsWs(w[i]) {
        assert w[i] == '\n' || w[i] == ' ';
      }
    }
    CollapseTwoWords("Foo", w, "Bar");
    assert "Foo" + [' '] + "Bar" == "Foo Bar";
  }

  /** Two words with whitespace between them collapse to the words and one space. */
  lemma CollapseTwoWords(a: String, w: String, b: String)
    requires a != [] && !IsWs(a[|a| - 1]) && Collapse(a) == a
    requires AllWs(w) && w != [] && b != [] && !IsWs(b[0]) && Collapse(b) == b
    ensures Collapse(a + (w + b)) == a + [' '] + b
  {
    CollapseConcat(a, w + b);
    CollapseWsPrefix(w, b);
  }

  /** A word of three letters is left alone by collapsing. */
  lemma WordFixed(s: String)
    requires |s| == 3 && !IsWs(s[0]) && !IsWs(s[1]) && !IsWs(s[2])
    ensures Collapse(s) == s
  {
    assert s[1..][1..] == [s[2]];
    CollapseCharStep([s[2]]);
    CollapseCharStep(s[1..]);
    CollapseCharStep(s);
  }

  /** `s` starts with `>`, whitespace and `<`, which `TagGaps` joins. */
  predicate GapAt(s: String) {
    s != [] && s[0] == '>' && var k := WsRun(s[1..]); k > 0 && 1 + k < |s| && s[1 + k] == '<'
  }

  /** `re.sub(r'>\s+<', '><', s)`: a run of whitespace between `>` and `<` is removed. */
  function TagGaps(s: String): (r: String)
    ensures s == [] <==> r == []
    ensures s != [] ==> r[0] == s[0]
    decreases |s|
  {
    if s == [] then []
    else if GapAt(s) then "><" + TagGaps(s[2 + WsRun(s[1..])..])
    else [s[0]] + TagGaps(s[1..])
  }

  /** The length of the leading run of whitespace. */
  function WsRun(t: String): (k: nat)
    ensures k <= |t|
  {
    |t| - |TrimLeft(t)|
  }

  lemma WsRunOne(u: String)
    requires |u| >= 2 && IsWs(u[0]) && !IsWs(u[1])
    ensures WsRun(u) == 1
  {
    assert TrimLeft(u) == TrimLeft(u[1..]);
    assert u[1..][0] == u[1];
  }

  /** No whitespace character sits between a `>` and a `<`. */
  predicate NoGap(r: String) {
    forall i :: 0 <= i < |r| - 2 ==> !(r[i] == '>' && IsWs(r[i + 1]) && r[i + 2] == '<')
  }

  lemma NoGapCons(c: char, t: String)
    requires NoGap(t)
    requires c == '>' && |t| >= 2 ==> !(IsWs(t[0]) && t[1] == '<')
    ensures NoGap([c] + t)
  {
    var r := [c] + t;
    forall i | 0 <= i < |r| - 2 ensures !(r[i] == '>' && IsWs(r[i + 1]) && r[i + 2] == '<') {
      if i >= 1 { assert r[i] == t[i - 1] && r[i + 1] == t[i] && r[i + 2] == t[i + 1]; }
    }
  }

  /** After a leading whitespace character the second character is kept too. */
  lemma TagGapsSecond(u: String)
    requires |u| >= 2 && IsWs(u[0])
    ensures |TagGaps(u)| >= 2 && TagGaps(u)[1] == u[1]
  {
    assert TagGaps(u) == [u[0]] + TagGaps(u[1..]);
    assert u[1..][0] == u[1];
  }

  lemma NoGapJoined(s: String)
    requires s != [] && GapAt(s) && NoGap(TagGaps(s[2 + WsRun(s[1..])..]))
    ensures NoGap(TagGaps(s))
  {
    var t := TagGaps(s[2 + WsRun(s[1..])..]);
    TagGapsGap(s);
    assert NoGap(['<'] + t) by { NoGapCons('<', t); }
    NoGapCons('>', ['<'] + t);
  }

  lemma NoGapKept(s: String)
    requires s != [] && !GapAt(s) && NoGap(TagGaps(s[1..]))
    ensures NoGap(TagGaps(s))
  {
    var t := TagGaps(s[1..]);
    if |s| >= 3 && IsWs(s[1]) && !IsWs(s[2]) {
      WsRunOne(s[1..]);
    }
    if |s| >= 3 && IsWs(s[1]) {
      TagGapsSecond(s[1..]);
    }
    assert TagGaps(s) == [s[0]] + t;
    NoGapCons(s[0], t);
  }

  lemma {:induction false} TagGapsNoGap(s: String)
    ensures NoGap(TagGaps(s))
    decreases |s|
  {
    if s != [] {
      if GapAt(s) {
        TagGapsNoGap(s[2 + WsRun(s[1..])..]);
        NoGapJoined(s);
      } else {
        TagGapsNoGap(s[1..]);
        NoGapKept(s);
      }
    }
  }

  /** The content cleanup: whitespace runs collapsed, then gaps between tags removed. */
  function CleanContent(html: String): String {
    TagGaps(Collapse(html))
  }

  /** The cleaned content never holds `> <`. */
  lemma CleanContentNoGap(html: String)
    ensures NoGap(CleanContent(html))
    ensures !Contains(CleanContent(html), "> <")
  {
    var r := CleanContent(html);
    TagGapsNoGap(Collapse(html));
    forall i | 0 <= i <= |r| - 3 ensures !OccursAt(r, "> <", i) {
      var w := r[i..i + 3];
      assert w[0] == r[i] && w[1] == r[i + 1] && w[2] == r[i + 2];
    }
  }

  lemma NonWsCons(c: char, t: String)
    ensures NonWs([c] + t) == (if IsWs(c) then [] else [c]) + NonWs(t)
  {
    assert ([c] + t)[1..] == t;
  }

  /** The non-whitespace of a gap: its two brackets, then that of the rest. */
  lemma NonWsGap(s: String)
    requires s != [] && GapAt(s)
    ensures NonWs(s) == ['>'] + (['<'] + NonWs(s[2 + WsRun(s[1..])..]))
  {
    var k := WsRun(s[1..]);
    var rest := s[2 + k..];
    assert NonWs(s[1 + k..]) == ['<'] + NonWs(rest) by {
      assert s[1 + k..] == ['<'] + rest;
      NonWsCons('<', rest);
    }
    assert NonWs(s[1..]) == NonWs(s[1 + k..]) by {
      NonWsTrimLeft(s[1..]);
      assert TrimLeft(s[1..]) == s[1 + k..];
    }
    NonWsCons('>', s[1..]);
    assert s == ['>'] + s[1..];
  }

  /** The non-whitespace of a joined gap: its two brackets, then that of the joined rest. */
  lemma NonWsGapJoined(s: String)
    requires s != [] && GapAt(s)
    ensures NonWs(TagGaps(s)) == ['>'] + (['<'] + NonWs(TagGaps(s[2 + WsRun(s[1..])..])))
  {
    TagGapsGap(s);
    NonWsBrackets(TagGaps(s[2 + WsRun(s[1..])..]));
  }

  /** A gap is replaced by its two brackets. */
  lemma TagGapsGap(s: String)
    requires s != [] && GapAt(s)
    ensures TagGaps(s) == ['>'] + (['<'] + TagGaps(s[2 + WsRun(s[1..])..]))
  {
  }

  lemma NonWsBrackets(t: String)
    ensures NonWs(['>'] + (['<'] + t)) == ['>'] + (['<'] + NonWs(t))
  {
    NonWsCons('>', ['<'] + t);
    NonWsCons('<', t);
  }

  lemma NonWsJoined(s: String)
    requires s != [] && GapAt(s)
    requires var rest := s[2 + WsRun(s[1..])..]; NonWs(TagGaps(rest)) == NonWs(rest)
    ensures NonWs(TagGaps(s)) == NonWs(s)
  {
    NonWsGap(s);
    NonWsGapJoined(s);
  }

  lemma NonWsKept(s: String)
    requires s != [] && !GapAt(s) && NonWs(TagGaps(s[1..])) == NonWs(s[1..])
    ensures NonWs(TagGaps(s)) == NonWs(s)
  {
    calc {
      NonWs(TagGaps(s));
      NonWs([s[0]] + TagGaps(s[1..]));
      { NonWsCons(s[0], TagGaps(s[1..])); }
      (if IsWs(s[0]) then [] else [s[0]]) + NonWs(s[1..]);
      { NonWsCons(s[0], s[1..]); assert s == [s[0]] + s[1..]; }
      NonWs(s);
    }
  }

  /** Removing the gaps keeps every other character, in order. */
  lemma {:induction false} TagGapsKeepsNonWs(s: String)
    ensures NonWs(TagGaps(s)) == NonWs(s)
    decreases |s|
  {
    if s != [] {
      if GapAt(s) {
        TagGapsKeepsNonWs(s[2 + WsRun(s[1..])..]);
        NonWsJoined(s);
      } else {
        TagGapsKeepsNonWs(s[1..]);
        NonWsKept(s);
      }
    }
  }

  /** The cleanup only ever removes whitespace. */
  lemma CleanContentKeepsText(html: String)
    ensures NonWs(CleanContent(html)) == NonWs(html)
  {
    TagGapsKeepsNonWs(Collapse(html));
    CollapseKeepsNonWs(html);
  }

  const PlaceholderHead: String :=
    "<div class=\"ct-section\"><div class=\"ct-section-inner-wrap\"><h2 class=\"ct-headline\">"
  const PlaceholderTail: String := "</h2><p>Content coming soon...</p></div></div>"

  /** The placeholder page body, headed by the title-cased page name. */
  function Placeholder(heading: String): String {
    PlaceholderHead + heading + PlaceholderTail
  }

  /** What the parser finds on a fetched page: the text of the `title` element and the HTML
      of the first content container, when there are such. */
  datatype Scraped = Scraped(titleText: Option<String>, container: Option<String>)

  /** `extract_page_content(url, page_name)`; `None` is a request that failed or raised. */
  function ExtractPageContent(fetched: Option<Scraped>, pageName: String,
                              titleCase: String -> String): (r: (String, String))
    ensures fetched.None? ==> r == (titleCase(pageName), Placeholder(titleCase(pageName)))
    ensures fetched.Some? ==>
              r.0 == (if fetched.value.titleText.Some? then CleanTitle(fetched.value.titleText.value)
                      else titleCase(pageName))
    ensures fetched.Some? ==>
              r.1 == (if fetched.value.container.Some? then CleanContent(fetched.value.container.value)
                      else Placeholder(titleCase(pageName)))
  {
    if fetched.None? then (titleCase(pageName), Placeholder(titleCase(pageName)))
    else
      var page := fetched.value;
      var title := if page.titleText.Some? then CleanTitle(page.titleText.value) else titleCase(pageName);
      var content := if page.container.Some? then CleanContent(page.container.value)
                     else Placeholder(titleCase(pageName));
      (title, content)
  }

  /** A title found on the page comes out tidy, and content found on it without gaps between
      tags and with all of its text. */
  lemma ExtractedPageClean(page: Scraped, pageName: String, titleCase: String -> String)
    ensures var r := ExtractPageContent(Some(page), pageName, titleCase);
            && (page.titleText.Some? ==> Tidy(r.0))
            && (page.container.Some? ==> NoGap(r.1) && NonWs(r.1) == NonWs(page.container.value))
  {
    if page.titleText.Some? { CleanTitleTidy(page.titleText.value); }
    if page.container.Some? {
      CleanContentNoGap(page.container.value);
      CleanContentKeepsText(page.container.value);
    }
  }

  /** The segments of the file `create_astro_page` writes: `src/pages/services/<name>.astro`
      for a service page, `src/pages/<name>.astro` otherwise. */
  function PageSegments(name: String, isService: bool): seq<String> {
    if isService then ["src", "pages", "services", name + ".astro"]
    else ["src", "pages", name + ".astro"]
  }

  function PagePath(name: String, isService: bool): String {
    Join(PageSegments(name, isService), '/')
  }

  /** The layout path the page imports, one level further up for service pages. */
  function LayoutSegments(isService: bool): seq<String> {
    if isService then ["..", "..", "layouts", "Layout.astro"] else ["..", "layouts", "Layout.astro"]
  }

  function LayoutImport(isService: bool): String {
    Join(LayoutSegments(isService), '/')
  }

  /** The page `create_astro_page` writes. */
  function AstroPage(title: String, content: String, isService: bool): String {
    Unlines([
      "---",
      "import Layout from '" + LayoutImport(isService) + "';",
      "",
      "const title = \"" + title + "\";",
      "const description = '';",
      "---",
      "",
      "<Layout {title} {description}>",
      "  <div class=\"ct-inner-content\">",
      "    <div set:html={`" + content + "`} />",
      "  </div>",
      "</Layout>"])
  }

  /** A join holds no line feed when its pieces hold none. */
  lemma {:induction false} JoinOneLine(ls: seq<String>)
    requires forall i :: 0 <= i < |ls| ==> '\n' !in ls[i]
    ensures '\n' !in Join(ls, '/')
    decreases |ls|
  {
    if |ls| > 1 {
      JoinOneLine(ls[1..]);
    }
  }

  lemma ImportOneLine(isService: bool)
    ensures '\n' !in "import Layout from '" + LayoutImport(isService) + "';"
  {
    var ls := LayoutSegments(isService);
    assert '\n' !in ".." && '\n' !in "layouts" && '\n' !in "Layout.astro";
    assert forall i :: 0 <= i < |ls| ==> ls[i] == ".." || ls[i] == "layouts" || ls[i] == "Layout.astro";
    JoinOneLine(ls);
    assert '\n' !in "import Layout from '";
  }

  lemma ConstsOneLine()
    ensures '\n' !in "const title = \"" && '\n' !in "\";" && '\n' !in "const description = '';"
  {
  }

  lemma LayoutOneLine()
    ensures '\n' !in "<Layout {title} {description}>" && '\n' !in "  <div class=\"ct-inner-content\">"
  {
  }

  lemma HtmlOneLine()
    ensures '\n' !in "    <div set:html={`" && '\n' !in "`} />" && '\n' !in "  </div>" && '\n' !in "</Layout>"
  {
  }

  /** Read line by line, the page imports the layout, binds the quoted title and an empty
      description, and gives the content to `set:html` as a template literal inside the
      layout, provided that the title and the content are single lines. */
  lemma AstroPageLines(title: String, content: String, isService: bool)
    requires '\n' !in title && '\n' !in content
    ensures Split(AstroPage(title, content, isService), '\n') ==
            ["---",
             "import Layout from '" + LayoutImport(isService) + "';",
             "",
             "const title = \"" + title + "\";",
             "const description = '';",
             "---",
             "",
             "<Layout {title} {description}>",
             "  <div class=\"ct-inner-content\">",
             "    <div set:html={`" + content + "`} />",
             "  </div>",
             "</Layout>",
             ""]
  {
    ImportOneLine(isService);
    ConstsOneLine();
    LayoutOneLine();
    HtmlOneLine();
    var ls := ["---",
               "import Layout from '" + LayoutImport(isService) + "';",
               "",
               "const title = \"" + title + "\";",
               "const description = '';",
               "---",
               "",
               "<Layout {title} {description}>",
               "  <div class=\"ct-inner-content\">",
               "    <div set:html={`" + content + "`} />",
               "  </div>",
               "</Layout>"];
    forall i | 0 <= i < |ls| ensures '\n' !in ls[i] {
    }
    Text.SplitUnlines(ls, []);
    assert Unlines(ls) + [] == Unlines(ls);
  }

  lemma NoSlashSegments(name: String, isService: bool)
    requires '/' !in name
    ensures Paths.NoSlash(PageSegments(name, isService)) && Paths.NoSlash(LayoutSegments(isService))
  {
    assert '/' !in name + ".astro";
  }

  /** The page file splits back into its segments. */
  lemma SplitPagePath(name: String, isService: bool)
    requires '/' !in name
    ensures Split(PagePath(name, isService), '/') == PageSegments(name, isService)
  {
    NoSlashSegments(name, isService);
    SplitJoin(PageSegments(name, isService), '/');
  }

  /** The layout import, resolved against the directory of the page, is
      `src/layouts/Layout.astro`, for service pages and for the others. */
  lemma LayoutImportResolves(name: String, isService: bool)
    requires '/' !in name
    ensures Paths.JoinPath(Paths.Dirname(Split(PagePath(name, isService), '/')), LayoutImport(isService))
            == ["src", "layouts", "Layout.astro"]
  {
    SplitPagePath(name, isService);
    NoSlashSegments(name, isService);
    var dir := Paths.Dirname(PageSegments(name, isService));
    var ups := if isService then 2 else 1;
    var names := ["layouts", "Layout.astro"];
    assert dir[..|dir| - ups] == ["src"];
    assert LayoutSegments(isService) == Paths.Ups(ups) + names;
    calc {
      Paths.JoinPath(dir, LayoutImport(isService));
      { Paths.JoinJoined(dir, LayoutSegments(isService)); }
      Paths.Resolve(dir, Paths.Ups(ups) + names);
      { Paths.ResolveConcat(dir, Paths.Ups(ups), names); Paths.ResolveUps(dir, ups); }
      Paths.Resolve(["src"], names);
      { Paths.ResolveNames(["src"], names); }
      ["src"] + names;
    }
  }

  /** One entry of the page list of `main`: the path below the site, the display name and
      whether it is a service page. */
  datatype Entry = Entry(path: String, name: String, isService: bool)

  /** The URL `main` fetches for an entry. */
  function EntryUrl(base: String, e: Entry): String {
    base + "/" + e.path + "/"
  }

  /** The file `main` writes for an entry: the file name is the last segment of the path. */
  function EntryOutput(base: String, e: Entry, fetch: String -> Option<Scraped>,
                       titleCase: String -> String): (String, String)
  {
    var page := ExtractPageContent(fetch(EntryUrl(base, e)), e.name, titleCase);
    (PagePath(LastPiece(e.path, '/'), e.isService), AstroPage(page.0, page.1, e.isService))
  }

  /** The pages written for `entries`, in order. */
  function Outputs(base: String, entries: seq<Entry>, fetch: String -> Option<Scraped>,
                   titleCase: String -> String): (r: seq<(String, String)>)
    ensures |r| == |entries|
  {
    if entries == [] then []
    else Outputs(base, entries[..|entries| - 1], fetch, titleCase)
         + [EntryOutput(base, entries[|entries| - 1], fetch, titleCase)]
  }

  /** Page `j` of the output is the one written for entry `j`. */
  lemma {:induction false} OutputsAt(base: String, entries: seq<Entry>, fetch: String -> Option<Scraped>,
                                     titleCase: String -> String, j: nat)
    requires j < |entries|
    ensures Outputs(base, entries, fetch, titleCase)[j] == EntryOutput(base, entries[j], fetch, titleCase)
    decreases |entries|
  {
    if j < |entries| - 1 {
      OutputsAt(base, entries[..|entries| - 1], fetch, titleCase, j);
    }
  }

  lemma OutputsSnoc(base: String, entries: seq<Entry>, fetch: String -> Option<Scraped>,
                    titleCase: String -> String, i: nat)
    requires i < |entries|
    ensures Outputs(base, entries[..i + 1], fetch, titleCase) ==
            Outputs(base, entries[..i], fetch, titleCase) + [EntryOutput(base, entries[i], fetch, titleCase)]
  {
    assert entries[..i + 1][..i] == entries[..i];
  }

  /** The loop of `main`, one page per entry, in order. */
  method RebuildAll(base: String, entries: seq<Entry>, fetch: String -> Option<Scraped>,
                    titleCase: String -> String)
    returns (files: seq<(String, String)>)
    ensures files == Outputs(base, entries, fetch, titleCase)
  {
    files := [];
    for i := 0 to |entries|
      invariant files == Outputs(base, entries[..i], fetch, titleCase)
    {
      OutputsSnoc(base, entries, fetch, titleCase, i);
      files := files + [EntryOutput(base, entries[i], fetch, titleCase)];
    }
    assert entries[..|entries|] == entries;
  }

  /** A service entry `services/<name>` is written to `src/pages/services/<name>.astro`. */
  lemma ServiceEntryPath(base: String, name: String, display: String,
                         fetch: String -> Option<Scraped>, titleCase: String -> String)
    requires '/' !in name
    ensures EntryOutput(base, Entry("services/" + name, display, true), fetch, titleCase).0 ==
            PagePath(name, true)
  {
    SplitCons("services", '/', name);
    assert "services/" + name == "services" + ['/'] + name;
    SplitNone(name, '/');
  }
}
