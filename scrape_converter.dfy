/** `scrape-converter.py`: the scraper that reads the slugs of the published pages from the
    WordPress REST API, fetches each rendered page, localises its images and links, and writes
    a Markdown copy under `<output_dir>/pages` and an Astro page under `src/pages`. */
module ScrapeConverter {
  import opened Text
  import opened Json
  import opened Options
  import opened Html
  import opened Frontmatter
  import opened Converters
  import Repair
  import Seqs

  /** The URL of a page with a (truthy) slug: the site itself for `home`,
      `<site>/<slug>/` otherwise. */
  function SlugUrl(site: String, slug: Value, repr: Value -> String): String {
    if slug == Str("home") then site else site + "/" + PyStr(slug, repr) + "/"
  }

  /** The URLs `get_page_urls` collects from the records, in order. */
  function PageUrls(site: String, pages: seq<Record>, repr: Value -> String): seq<String>
  {
    if pages == [] then []
    else
      var last := pages[|pages| - 1];
      PageUrls(site, pages[..|pages| - 1], repr) +
        (if HasSlug(last) then [SlugUrl(site, Get(last, "slug", Str("")), repr)] else [])
  }

  /** `get_page_urls`; `None` is an answer with a status other than 200. */
  method GetPageUrls(site: String, answer: Option<seq<Record>>, repr: Value -> String)
    returns (urls: seq<String>)
    ensures answer.None? ==> urls == []
    ensures answer.Some? ==> urls == PageUrls(site, answer.value, repr)
  {
    if answer.None? {
      return [];
    }
    var pages := answer.value;
    urls := [];
    for i := 0 to |pages|
      invariant urls == PageUrls(site, pages[..i], repr)
    {
      var slug := Get(pages[i], "slug", Str(""));
      assert pages[..i + 1][..i] == pages[..i];
      if PyTruthy(slug) {
        if slug == Str("home") {
          urls := urls + [site];
        } else {
          urls := urls + [site + "/" + PyStr(slug, repr) + "/"];
        }
      }
    }
    assert pages[..|pages|] == pages;
  }

  /** `u` is `<site>/<slug>/` for the slug of one of the records. */
  ghost predicate SlugBelow(site: String, pages: seq<Record>, u: String, repr: Value -> String) {
    exists p :: p in pages && HasSlug(p) && u == site + "/" + PyStr(Get(p, "slug", Str("")), repr) + "/"
  }

  /** One URL per record with a slug, in the order of the records; each URL is the site or
      a `/`-delimited slug below it. */
  lemma {:induction false} PageUrlsShape(site: String, pages: seq<Record>, repr: Value -> String)
    ensures |PageUrls(site, pages, repr)| == |Seqs.Filter(HasSlug, pages)|
    ensures forall u :: u in PageUrls(site, pages, repr) ==>
              u == site || SlugBelow(site, pages, u, repr)
  {
    if pages != [] {
      var init := pages[..|pages| - 1];
      var last := pages[|pages| - 1];
      PageUrlsShape(site, init, repr);
      assert pages == init + [last];
      Seqs.FilterAppend(HasSlug, init, last);
      forall u | u in PageUrls(site, pages, repr) ensures u == site || SlugBelow(site, pages, u, repr) {
        if u !in PageUrls(site, init, repr) {
          assert HasSlug(last) && u == SlugUrl(site, Get(last, "slug", Str("")), repr);
        } else if u != site {
          var p :| p in init && HasSlug(p) &&
                   u == site + "/" + PyStr(Get(p, "slug", Str("")), repr) + "/";
          assert p in pages;
        }
      }
    }
  }

  /** The slug `run_scraping` derives from a page URL: every copy of the site URL removed,
      `/` stripped from both ends, and `home` for what is left empty. */
  function SlugOf(url: String, site: String): (slug: String)
    ensures slug != []
    ensures slug != "home" ==> slug[0] != '/' && slug[|slug| - 1] != '/'
  {
    var s := StripChar(ReplaceAll(url, site, []), '/');
    if s == [] then "home" else s
  }

  /** Stripping a slash-delimited name gives the name back. */
  lemma StripDelimited(slug: String)
    requires slug != [] && '/' !in slug
    ensures StripChar("/" + slug + "/", '/') == slug
  {
    var t := "/" + slug + "/";
    assert t[1..] == slug + "/";
    assert slug[0] != '/';
    assert (slug + "/")[0] == slug[0];
    assert (slug + "/")[..|slug|] == slug;
    assert slug[|slug| - 1] != '/';
    assert StripChar(t, '/') == StripChar(t[1..], '/');
    assert StripChar(slug + "/", '/') == StripChar(slug, '/');
    assert StripChar(slug, '/') == slug;
  }

  /** Deriving the slug back from the URL built for it gives the slug: always for `home`, and
      for any other non-empty slug without `/` in whose delimited form the site URL does not
      occur. */
  lemma SlugRoundTrip(site: String, slug: String, repr: Value -> String)
    requires site != [] && slug != [] && '/' !in slug
    requires slug != "home" ==> !Contains("/" + slug + "/", site)
    ensures SlugOf(SlugUrl(site, Str(slug), repr), site) == slug
  {
    if slug == "home" {
      assert !Contains([], site);
      RemovePrefixOccurrence(site, []);
      assert site + [] == site;
    } else {
      var t := "/" + slug + "/";
      RemovePrefixOccurrence(site, t);
      assert site + "/" + slug + "/" == site + t;
      StripDelimited(slug);
    }
  }

  /** The site URL itself is the home page. */
  lemma HomeSlug(site: String)
    requires site != []
    ensures SlugOf(site, site) == "home"
  {
    assert !Contains([], site);
    RemovePrefixOccurrence(site, []);
    assert site + [] == site;
  }

  /** An image `src` made absolute before the download: protocol-relative gets `https:`,
      root-relative is put under the site, a relative reference is resolved against the page,
      and anything starting with `http` is kept. */
  function AbsoluteSrc(src: String, site: String, pageUrl: String, env: Oracles): String {
    if StartsWith(src, "//") then "https:" + src
    else if StartsWith(src, "/") then site + src
    else if !StartsWith(src, "http") then env.urljoin(pageUrl, src)
    else src
  }

  lemma StartsWithConcat(a: String, b: String, p: String)
    requires StartsWith(a, p)
    ensures StartsWith(a + b, p)
  {
    assert (a + b)[..|p|] == a[..|p|];
  }

  /** For a site URL starting with `http`, and a join that gives an `http` URL, the result
      starts with `http`, a source that already did is kept, and making it absolute twice is
      making it absolute once. */
  lemma AbsoluteSrcIdempotent(src: String, site: String, pageUrl: String, env: Oracles)
    requires StartsWith(site, "http")
    requires StartsWith(env.urljoin(pageUrl, src), "http")
    ensures var a := AbsoluteSrc(src, site, pageUrl, env);
            && StartsWith(a, "http")
            && (StartsWith(src, "http") ==> a == src)
            && AbsoluteSrc(a, site, pageUrl, env) == a
  {
    var a := AbsoluteSrc(src, site, pageUrl, env);
    if StartsWith(src, "//") {
      assert "https:"[..4] == "http";
      StartsWithConcat("https:", src, "http");
      assert StartsWith("https:", "http");
      assert !StartsWith(src, "http") by {
        assert src[1] == '/' && "http"[1] == 't';
      }
    } else if StartsWith(src, "/") {
      StartsWithConcat(site, src, "http");
      assert !StartsWith(src, "http") by {
        assert src[0] == '/' && "http"[0] == 'h';
      }
    }
    assert a[0] == 'h';
  }

  /** The image loop of `process_content`: an `img` with a `src` gets the downloaded copy of
      the absolute source. */
  function ImgRule(site: String, pageUrl: String, env: Oracles, e: Element): Element {
    if e.tag == "img" && HasValue(e, "src")
    then WithDownloadedSrc(e, AbsoluteSrc(Attr(e, "src"), site, pageUrl, env), env)
    else e
  }

  function ImgStep(site: String, pageUrl: String, env: Oracles): Element -> Element {
    e => ImgRule(site, pageUrl, env, e)
  }

  /** An image ends up with its absolute source or a `/images/wp_` path; other elements and
      the other attributes of an image are left alone. */
  lemma ImgRuleEffect(site: String, pageUrl: String, env: Oracles, e: Element)
    ensures var r := ImgRule(site, pageUrl, env, e);
            && r.tag == e.tag
            && (forall n :: n != "src" ==> Attr(r, n) == Attr(e, n))
            && (e.tag == "img" && HasValue(e, "src") ==>
                  var a := AbsoluteSrc(Attr(e, "src"), site, pageUrl, env);
                  Attr(r, "src") == a || StartsWith(Attr(r, "src"), "/images/wp_"))
            && (e.tag != "img" || !HasValue(e, "src") ==> r == e)
  {
    if e.tag == "img" && HasValue(e, "src") {
      DownloadedImagePath(AbsoluteSrc(Attr(e, "src"), site, pageUrl, env), env);
    }
  }

  /** `process_content(soup, page_url)`: both loops update the parsed page in place, images
      first, then links. */
  method ProcessContent(soup: array<Element>, site: String, pageUrl: String, env: Oracles)
    modifies soup
    ensures soup[..] == Seqs.Map(LinkStep(site), Seqs.Map(ImgStep(site, pageUrl, env), old(soup[..])))
  {
    MapInPlace(soup, ImgStep(site, pageUrl, env));
    MapInPlace(soup, LinkStep(site));
  }

  /** The frontmatter of the Markdown copy, in the order the dictionary lists it. */
  function MarkdownFields(title: String): seq<Field> {
    [("title", Str(title)), ("description", Str("")), ("draft", Bool(false))]
  }

  /** The Astro page, with title and content already escaped: the frontmatter with the
      quoted title, then the layout with the title as heading and the content as a
      JavaScript template literal given to `set:html`. */
  function AstroPage(title: String, content: String): String {
    Head + title + Middle + title + Before + "{`" + content + "`}" + Tail
  }

  // ---------------------------------------------------------------- the page template

  /** How Python reads the text of an f-string: `{{` and `}}` stand for one brace, a single
      `{` opens a replacement field that runs to the next `}`, and `eval` gives the text of the
      field's expression, formatted. `None` is the `SyntaxError` the compiler raises for a
      field that is never closed, an empty field, a field whose expression starts with a
      backtick (no token of Python 3 starts with one), or a `}` on its own. */
  function FString(t: String, eval: String -> String): Option<String>
    decreases |t|
  {
    if t == [] then Some([])
    else if t[0] == '{' then
      if |t| >= 2 && t[1] == '{' then Repair.Prepend("{", FString(t[2..], eval))
      else
        var k := FirstOf(t, 1, {'}'});
        if k == |t| || k == 1 || t[1] == '`' then None
        else Repair.Prepend(eval(t[1..k]), FString(t[k + 1..], eval))
    else if t[0] == '}' then
      if |t| >= 2 && t[1] == '}' then Repair.Prepend("}", FString(t[2..], eval)) else None
    else Repair.Prepend([t[0]], FString(t[1..], eval))
  }

  /** Text without braces stands for itself, before whatever follows. */
  lemma {:induction false} FStringPlain(a: String, b: String, eval: String -> String)
    requires '{' !in a && '}' !in a
    ensures FString(a + b, eval) == Repair.Prepend(a, FString(b, eval))
    decreases |a|
  {
    if a == [] {
      assert a + b == b;
      if FString(b, eval).Some? {
        assert a + FString(b, eval).value == FString(b, eval).value;
      }
    } else {
      assert (a + b)[0] == a[0] && (a + b)[1..] == a[1..] + b;
      FStringPlain(a[1..], b, eval);
      if FString(b, eval).Some? {
        assert [a[0]] + (a[1..] + FString(b, eval).value) == a + FString(b, eval).value;
      }
    }
  }

  /** A field holding a name stands for the name's formatted value. */
  lemma FStringField(e: String, b: String, eval: String -> String)
    requires IsName(e)
    ensures FString(Field(e) + b, eval) == Repair.Prepend(eval(e), FString(b, eval))
  {
    var t := Field(e) + b;
    FirstOfAt(t, 1, |e| + 1, {'}'});
    assert t[1..|e| + 1] == e && t[|e| + 2..] == b;
  }

  /** A doubled brace stands for one brace. */
  lemma FStringBraces(b: String, eval: String -> String)
    ensures FString("{{" + b, eval) == Repair.Prepend("{", FString(b, eval))
    ensures FString("}}" + b, eval) == Repair.Prepend("}", FString(b, eval))
  {
    assert ("{{" + b)[2..] == b && ("}}" + b)[2..] == b;
  }

  /** A field that opens on a backtick does not compile. */
  lemma FStringBacktick(b: String, eval: String -> String)
    ensures FString("{`" + b, eval) == None
  {
    var t := "{`" + b;
    assert t[0] == '{' && t[1] == '`';
  }

  /** The replacement field of a name. */
  function Field(name: String): String {
    "{" + name + "}"
  }

  /** The text of the page template before its first field, between its fields, and after
      the last one, line by line. */
  const Head: String := "---\ntitle: \""
  const Description: String := "\"\ndescription: ''\n---\n\n"
  const Prose: String := "  <div class=\"prose max-w-none\">\n"
  const Middle: String := Description + "<Layout>\n" + Prose + "    <h1>"
  const Before: String := "</h1>\n    <div set:html="
  const Tail: String := " />\n  </div>\n</Layout>\n"

  /** The f-string of `convert_to_astro_page` as written: `set:html={`{escaped_content}`}`. */
  const PageTemplate: String :=
    Head + Field("escaped_title") + Middle + Field("escaped_title") + Before +
    ("{`" + Field("escaped_content") + "`}" + Tail)

  /** The f-string with the braces around the template literal doubled, as the rebuilt pages
      write it. */
  const IntendedTemplate: String :=
    Head + Field("escaped_title") + Middle + Field("escaped_title") + Before +
    ("{{`" + Field("escaped_content") + "`}}" + Tail)

  lemma HeadPlain()
    ensures '{' !in Head && '}' !in Head
  {
  }

  lemma DescriptionPlain()
    ensures '{' !in Description && '}' !in Description
  {
  }

  lemma ProsePlain()
    ensures '{' !in Prose && '}' !in Prose
  {
  }

  lemma MiddlePlain()
    ensures '{' !in Middle && '}' !in Middle
  {
    DescriptionPlain();
    ProsePlain();
  }

  lemma BeforePlain()
    ensures '{' !in Before && '}' !in Before
  {
  }

  lemma TailPlain()
    ensures '{' !in Tail && '}' !in Tail
  {
  }

  /** A name a replacement field can hold. */
  predicate IsName(n: String) {
    n != [] && n[0] != '{' && n[0] != '`' && '}' !in n
  }

  /** Plain text and a field stand for the text and the value of the field, before
      whatever follows. */
  lemma OneField(h: String, n: String, b: String, eval: String -> String)
    requires '{' !in h && '}' !in h && IsName(n)
    ensures FString(h + Field(n) + b, eval) == Repair.Prepend(h + eval(n), FString(b, eval))
  {
    var x := Field(n) + b;
    assert h + Field(n) + b == h + x;
    FStringField(n, b, eval);
    FStringPlain(h, x, eval);
    if FString(b, eval).Some? {
      assert h + (eval(n) + FString(b, eval).value) == h + eval(n) + FString(b, eval).value;
    }
  }

  /** Plain text with two fields between its parts stands for the parts with the values of
      the fields, before whatever follows. */
  lemma TwoFields(h: String, n1: String, m: String, n2: String, bf: String, b: String,
                  eval: String -> String)
    requires '{' !in h && '}' !in h && '{' !in m && '}' !in m && '{' !in bf && '}' !in bf
    requires IsName(n1) && IsName(n2)
    ensures FString(h + Field(n1) + m + Field(n2) + bf + b, eval) ==
            Repair.Prepend(h + eval(n1) + m + eval(n2) + bf, FString(b, eval))
  {
    var x := m + Field(n2) + (bf + b);
    assert h + Field(n1) + m + Field(n2) + bf + b == h + Field(n1) + x;
    OneField(h, n1, x, eval);
    OneField(m, n2, bf + b, eval);
    FStringPlain(bf, b, eval);
    if FString(b, eval).Some? {
      var r := FString(b, eval).value;
      assert h + eval(n1) + (m + eval(n2) + (bf + r)) == h + eval(n1) + m + eval(n2) + bf + r;
    }
  }

  /** A backtick, a field, a backtick and a doubled closing brace give the value of the field
      between backticks and one brace. */
  lemma ClosingLiteral(n: String, tl: String, eval: String -> String)
    requires IsName(n) && '{' !in tl && '}' !in tl
    ensures FString("`" + (Field(n) + ("`" + ("}}" + tl))), eval) ==
            Some("`" + (eval(n) + ("`" + ("}" + tl))))
  {
    FStringPlain(tl, [], eval);
    assert tl + [] == tl;
    FStringBraces(tl, eval);
    FStringPlain("`", "}}" + tl, eval);
    FStringField(n, "`" + ("}}" + tl), eval);
    FStringPlain("`", Field(n) + ("`" + ("}}" + tl)), eval);
  }

  /** Regrouping six texts joined left to right so that they are joined right to left. */
  lemma Nest(a: String, b: String, c: String, d: String, e: String, f: String)
    ensures a + b + c + (d + e) + f == a + (b + (c + (d + (e + f))))
  {
  }

  /** A field between a backtick and doubled braces gives a template literal of its value. */
  lemma BracedLiteral(n: String, tl: String, eval: String -> String)
    requires IsName(n) && '{' !in tl && '}' !in tl
    ensures FString("{{`" + Field(n) + "`}}" + tl, eval) == Some("{`" + eval(n) + "`}" + tl)
  {
    assert "{{`" == "{{" + "`" && "`}}" == "`" + "}}";
    assert "{`" == "{" + "`" && "`}" == "`" + "}";
    Nest("{{", "`", Field(n), "`", "}}", tl);
    Nest("{", "`", eval(n), "`", "}", tl);
    var x := "`" + (Field(n) + ("`" + ("}}" + tl)));
    ClosingLiteral(n, tl, eval);
    FStringBraces(x, eval);
  }

  /** The page template as written does not compile, whatever the values of its fields:
      Python rejects the whole module, so the script writes no page at all. */
  lemma PageTemplateRejected(eval: String -> String)
    ensures FString(PageTemplate, eval) == None
  {
    HeadPlain();
    MiddlePlain();
    BeforePlain();
    var b := "{`" + Field("escaped_content") + "`}" + Tail;
    TwoFields(Head, "escaped_title", Middle, "escaped_title", Before, b, eval);
    assert b == "{`" + (Field("escaped_content") + "`}" + Tail);
    FStringBacktick(Field("escaped_content") + "`}" + Tail, eval);
  }

  /** With the braces doubled, the template gives the Astro page of the values of
      `escaped_title` and `escaped_content`. */
  lemma IntendedTemplatePage(eval: String -> String)
    ensures FString(IntendedTemplate, eval) == Some(AstroPage(eval("escaped_title"), eval("escaped_content")))
  {
    HeadPlain();
    MiddlePlain();
    BeforePlain();
    TailPlain();
    var t, c := eval("escaped_title"), eval("escaped_content");
    var b := "{{`" + Field("escaped_content") + "`}}" + Tail;
    TwoFields(Head, "escaped_title", Middle, "escaped_title", Before, b, eval);
    BracedLiteral("escaped_content", Tail, eval);
    assert Head + t + Middle + t + Before + ("{`" + c + "`}" + Tail) == AstroPage(t, c);
  }

  /** What `convert_to_astro_page` writes: the Markdown copy and the Astro page, each with
      its path. */
  datatype Output = Output(markdownPath: String, markdown: String, astroPath: String,
                           astro: String)

  method ConvertToAstroPage(title: String, content: String, slug: String, outputDir: String,
                            env: Oracles)
    returns (out: Output)
    ensures out.markdown == ScalarBlock(MarkdownFields(title), env.dumps) + content
    ensures out.markdownPath == PyJoin(PyJoin(outputDir, "pages"), slug + ".md")
    ensures out.astro == AstroPage(EscapeQuotes(title), EscapeQuotes(content))
    ensures out.astroPath == AstroPagePath(slug == "home", slug)
  {
    var block := WriteScalarBlock(MarkdownFields(title), env.dumps);
    var markdown := block + content;
    var escapedTitle := ReplaceAll(ReplaceAll(title, "\"", "\\\""), "'", "\\'");
    var escapedContent := ReplaceAll(ReplaceAll(content, "\"", "\\\""), "'", "\\'");
    EscapeQuotesIsChainedReplace(title);
    EscapeQuotesIsChainedReplace(content);
    var astroPath;
    if slug == "home" {
      astroPath := PyJoin(PagesDir, "index.astro");
    } else {
      astroPath := PyJoin(PagesDir, slug + ".astro");
    }
    out := Output(PyJoin(PyJoin(outputDir, "pages"), slug + ".md"), markdown, astroPath,
                  AstroPage(escapedTitle, escapedContent));
  }

  /** Read line by line, the Markdown copy is `---`, the title, description and draft lines
      in that order, `---`, an empty line, and the lines of the content, provided that the
      encoder does not emit line feeds. */
  lemma MarkdownLines(title: String, content: String, env: Oracles)
    requires forall v :: '\n' !in env.dumps(v)
    ensures Split(ScalarBlock(MarkdownFields(title), env.dumps) + content, '\n') ==
            ["---", "title: " + env.dumps(Str(title)), "description: " + env.dumps(Str("")),
             "draft: " + env.dumps(Bool(false)), "---", ""] + Split(content, '\n')
  {
    var fields := MarkdownFields(title);
    forall i | 0 <= i < |fields| ensures '\n' !in fields[i].0 && '\n' !in env.dumps(fields[i].1) {
      assert fields[i].0 == "title" || fields[i].0 == "description" || fields[i].0 == "draft";
    }
    var ls := ScalarLines(fields, env.dumps);
    assert ls[0] == "title: " + env.dumps(Str(title)) by {
      assert "title" + ": " == "title: ";
    }
    assert ls[1] == "description: " + env.dumps(Str("")) by {
      assert "description" + ": " == "description: ";
    }
    assert ls[2] == "draft: " + env.dumps(Bool(false)) by {
      assert "draft" + ": " == "draft: ";
    }
    assert ls == [ls[0], ls[1], ls[2]];
    ScalarDocumentLines(fields, env.dumps, content);
  }
}
