/** `wordpress-converter.py`: the converter that pages through the posts and pages of the
    WordPress REST API, writes each as Markdown with frontmatter under `<output_dir>/posts`
    and `<output_dir>/pages`, and writes an Astro page for every page with a slug. */
module WpConverter {
  import opened Text
  import opened Json
  import opened Options
  import opened Html
  import opened Frontmatter
  import opened Converters
  import Seqs

  /** `f"{self.wp_url}/wp-json/wp/v2"`. */
  function ApiRoot(site: String): String {
    site + "/wp-json/wp/v2"
  }

  /** Whatever slashes end the given URL, the API root is the URL without them followed by
      `/wp-json/wp/v2`, so no `//` comes before `wp-json`. */
  lemma ApiRootOf(raw: String)
    ensures var a := ApiRoot(SiteUrl(raw));
            && EndsWith(a, "/wp-json/wp/v2")
            && StartsWith(raw, a[..|a| - 14])
            && (|a| == 14 || a[|a| - 15] != '/')
    ensures ApiRoot(SiteUrl(raw + "/")) == ApiRoot(SiteUrl(raw))
  {
    var site := SiteUrl(raw);
    var a := ApiRoot(site);
    assert a[..|a| - 14] == site;
    assert a[|a| - 14..] == "/wp-json/wp/v2";
    SiteUrlTrailingSlash(raw);
  }

  /** The query `requests.get(url, params=...)` sends. */
  datatype Query = Query(perPage: nat, page: nat, status: String, embed: String)

  function PageQuery(perPage: nat, page: nat): Query {
    Query(perPage, page, "publish", "true")
  }

  const DefaultPerPage: nat := 100

  /** The loop ends on a status other than 200 (`None`) or on an empty list. */
  predicate Stops(answer: Option<seq<Value>>) {
    answer.None? || answer.value == []
  }

  /** The items of pages `1 .. n - 1`, in order. */
  function Received(get: (String, Query) -> Option<seq<Value>>, url: String, perPage: nat,
                    n: nat): seq<Value>
  {
    if n <= 1 then []
    else Received(get, url, perPage, n - 1) + get(url, PageQuery(perPage, n - 1)).GetOr([])
  }

  /** The `while True` loop of `fetch_posts` and `fetch_pages`: pages 1, 2, ... are requested
      in order until the first failure or empty page, and the items of the pages before it are
      concatenated. The loop only ends if such a page exists. */
  method FetchAll(url: String, perPage: nat, get: (String, Query) -> Option<seq<Value>>)
    returns (items: seq<Value>, last: nat)
    requires exists n :: 1 <= n && Stops(get(url, PageQuery(perPage, n)))
    ensures 1 <= last && Stops(get(url, PageQuery(perPage, last)))
    ensures forall p :: 1 <= p < last ==> !Stops(get(url, PageQuery(perPage, p)))
    ensures items == Received(get, url, perPage, last)
    ensures |items| >= last - 1
  {
    ghost var bound :| 1 <= bound && Stops(get(url, PageQuery(perPage, bound)));
    items := [];
    var page := 1;
    while true
      invariant 1 <= page <= bound
      invariant forall p :: 1 <= p < page ==> !Stops(get(url, PageQuery(perPage, p)))
      invariant items == Received(get, url, perPage, page)
      invariant |items| >= page - 1
      decreases bound - page
    {
      var answer := get(url, PageQuery(perPage, page));
      if answer.None? {
        break;
      }
      var data := answer.value;
      if data == [] {
        break;
      }
      items := items + data;
      page := page + 1;
    }
    last := page;
  }

  /** `fetch_posts()`. */
  method FetchPosts(api: String, get: (String, Query) -> Option<seq<Value>>)
    returns (posts: seq<Value>)
    requires exists n :: 1 <= n && Stops(get(api + "/posts", PageQuery(DefaultPerPage, n)))
    ensures exists last :: 1 <= last && Stops(get(api + "/posts", PageQuery(DefaultPerPage, last)))
              && (forall p :: 1 <= p < last ==> !Stops(get(api + "/posts", PageQuery(DefaultPerPage, p))))
              && posts == Received(get, api + "/posts", DefaultPerPage, last)
  {
    var last;
    posts, last := FetchAll(api + "/posts", DefaultPerPage, get);
  }

  /** `fetch_pages()`. */
  method FetchPages(api: String, get: (String, Query) -> Option<seq<Value>>)
    returns (pages: seq<Value>)
    requires exists n :: 1 <= n && Stops(get(api + "/pages", PageQuery(DefaultPerPage, n)))
    ensures exists last :: 1 <= last && Stops(get(api + "/pages", PageQuery(DefaultPerPage, last)))
              && (forall p :: 1 <= p < last ==> !Stops(get(api + "/pages", PageQuery(DefaultPerPage, p))))
              && pages == Received(get, api + "/pages", DefaultPerPage, last)
  {
    var last;
    pages, last := FetchAll(api + "/pages", DefaultPerPage, get);
  }

  /** `record.get(key, {}).get('rendered', '')` when the field is a dict, and
      `str(record.get(key, ''))` otherwise. */
  function Rendered(r: Record, key: String, repr: Value -> String): (v: Value)
    ensures key !in r ==> v == Str("")
    ensures key in r && r[key].Str? ==> v == r[key]
    ensures key in r && r[key].Object? ==> v == Get(r[key].fields, "rendered", Str(""))
    ensures !v.Str? ==> key in r && r[key].Object?
  {
    if key in r && r[key].Object? then Get(r[key].fields, "rendered", Str(""))
    else Str(PyStr(Get(r, key, Str("")), repr))
  }

  /** What BeautifulSoup accepts here: a string, or a false value the guard stops first. */
  predicate Parsable(v: Value) {
    v.Str? || !PyTruthy(v)
  }

  /** The image loop of `process_content`: an `img` with a `src` gets the downloaded copy. */
  function ImgRule(env: Oracles, e: Element): Element {
    if e.tag == "img" && HasValue(e, "src") then WithDownloadedSrc(e, Attr(e, "src"), env) else e
  }

  function ImgStep(env: Oracles): Element -> Element {
    e => ImgRule(env, e)
  }

  /** The text `process_content` returns. */
  function ProcessedContent(content: Value, site: String, env: Oracles): (html: String)
    requires Parsable(content)
    ensures !PyTruthy(content) ==> html == ""
  {
    if !PyTruthy(content) then ""
    else env.render(Seqs.Map(LinkStep(site), Seqs.Map(ImgStep(env), env.parse(content.s))))
  }

  /** `process_content(content)`: empty content gives `""`; otherwise the parsed document is
      updated in place, images first, then links, and rendered back. */
  method ProcessContent(content: Value, site: String, env: Oracles) returns (html: String)
    requires Parsable(content)
    ensures html == ProcessedContent(content, site, env)
  {
    if !PyTruthy(content) {
      return "";
    }
    var elements := env.parse(content.s);
    var soup := new Element[|elements|](i requires 0 <= i < |elements| => elements[i]);
    assert soup[..] == elements;
    MapInPlace(soup, ImgStep(env));
    MapInPlace(soup, LinkStep(site));
    html := env.render(soup[..]);
  }

  /** `cat.get('name', '')` for a dict entry of `categories`. */
  function NameOf(c: Value): Value {
    if c.Object? then Get(c.fields, "name", Str("")) else Null
  }

  predicate IsObject(v: Value) {
    v.Object?
  }

  /** The names of the categories given as dicts, in order; IDs and a value that is not a
      list give none. */
  function CategoryNames(categories: Value): seq<Value> {
    if categories.List? then Seqs.Map(NameOf, Seqs.Filter(IsObject, categories.items)) else []
  }

  /** The category loop of `convert_post_to_astro`. */
  method CollectCategoryNames(categories: Value) returns (names: seq<Value>)
    ensures names == CategoryNames(categories)
  {
    names := [];
    if !categories.List? {
      return;
    }
    var items := categories.items;
    for i := 0 to |items|
      invariant names == Seqs.Map(NameOf, Seqs.Filter(IsObject, items[..i]))
    {
      var cat := items[i];
      assert items[..i + 1] == items[..i] + [cat];
      Seqs.FilterAppend(IsObject, items[..i], cat);
      if cat.Object? {
        Seqs.MapAppend(NameOf, Seqs.Filter(IsObject, items[..i]), cat);
        names := names + [Get(cat.fields, "name", Str(""))];
      }
    }
    assert items[..|items|] == items;
  }

  /** Every name comes from a dict entry, and there is one per dict entry. */
  lemma CategoryNamesFromDicts(items: seq<Value>)
    ensures |CategoryNames(List(items))| == |Seqs.Filter(IsObject, items)|
    ensures forall n :: n in CategoryNames(List(items)) ==>
              exists c :: c in items && c.Object? && n == Get(c.fields, "name", Str(""))
  {
    var objs := Seqs.Filter(IsObject, items);
    forall n | n in CategoryNames(List(items))
      ensures exists c :: c in items && c.Object? && n == Get(c.fields, "name", Str(""))
    {
      var i :| 0 <= i < |objs| && n == NameOf(objs[i]);
      assert objs[i] in objs;
    }
  }

  /** `_embedded.author[0].name`, read when `_embedded.author` is truthy. */
  predicate AuthorReadable(post: Record) {
    var emb := Get(post, "_embedded", Object(map[]));
    emb.Object? &&
    var a := Get(emb.fields, "author", Null);
    PyTruthy(a) ==> a.List? && a.items[0].Object?
  }

  function Author(post: Record): Value
    requires AuthorReadable(post)
  {
    var emb := Get(post, "_embedded", Object(map[]));
    var a := Get(emb.fields, "author", Null);
    if PyTruthy(a) then Get(a.items[0].fields, "name", Str("")) else Str("")
  }

  /** The records the converter handles without raising: the content and the excerpt it
      parses are strings or empty, and the author path it reads has the shape it expects. */
  predicate WellFormedPost(post: Record, repr: Value -> String) {
    && Parsable(Rendered(post, "content", repr))
    && Parsable(Rendered(post, "excerpt", repr))
    && AuthorReadable(post)
  }

  /** `post.get('status') != 'publish'`. */
  function Draft(r: Record): (v: Value)
    ensures v.Bool? && (v.b <==> !("status" in r && r["status"] == Str("publish")))
  {
    Bool(Get(r, "status", Null) != Str("publish"))
  }

  /** The description: the text of the excerpt, trimmed, or `''` without one. */
  function Description(excerpt: Value, env: Oracles): (d: String)
    requires Parsable(excerpt)
    ensures d == [] || (!IsWs(d[0]) && !IsWs(d[|d| - 1]))
  {
    if PyTruthy(excerpt) then Strip(env.getText(excerpt.s)) else ""
  }

  /** The frontmatter dictionary of a post, in its order. */
  function PostFields(post: Record, env: Oracles): seq<Field>
    requires WellFormedPost(post, env.repr)
  {
    [("title", Rendered(post, "title", env.repr)),
     ("description", Str(Description(Rendered(post, "excerpt", env.repr), env))),
     ("pubDate", Get(post, "date", Str(""))),
     ("author", Author(post)),
     ("tags", List(CategoryNames(Get(post, "categories", List([]))))),
     ("draft", Draft(post))]
  }

  /** The frontmatter dictionary of a page. */
  function PageFields(page: Record, repr: Value -> String): seq<Field> {
    [("title", Rendered(page, "title", repr)), ("description", Str("")), ("draft", Draft(page))]
  }

  /** `f"{slug}.md"`, or `f"{kind}-{record.get('id', 'unknown')}.md"` without a slug. */
  function Filename(kind: String, r: Record, repr: Value -> String): (name: String)
    ensures EndsWith(name, ".md")
  {
    var slug := Get(r, "slug", Str(""));
    var stem := if PyTruthy(slug) then PyStr(slug, repr)
                else kind + "-" + PyStr(Get(r, "id", Str("unknown")), repr);
    assert (stem + ".md")[|stem|..] == ".md";
    stem + ".md"
  }

  /** A non-empty string slug names the file; a record without a slug and without an id
      gets `<kind>-unknown.md`. */
  lemma FilenameCases(kind: String, r: Record, repr: Value -> String)
    ensures "slug" in r && r["slug"].Str? && r["slug"].s != [] ==>
              Filename(kind, r, repr) == r["slug"].s + ".md"
    ensures "slug" !in r && "id" !in r ==> Filename(kind, r, repr) == kind + "-unknown.md"
  {
  }

  /** A slug can take the file name of a record without one. */
  lemma FilenameClash(repr: Value -> String)
    ensures Filename("post", map["slug" := Str("post-5")], repr) ==
            Filename("post", map["id" := Str("5")], repr)
  {
    var a: Record := map["slug" := Str("post-5")];
    var b: Record := map["id" := Str("5")];
    assert Get(b, "slug", Str("")) == Str("");
    assert Get(b, "id", Str("unknown")) == Str("5");
  }

  /** `convert_post_to_astro(post)`: the file and its text. */
  method ConvertPost(post: Record, site: String, outputDir: String, env: Oracles)
    returns (path: String, text: String)
    requires WellFormedPost(post, env.repr)
    ensures path == PyJoin(PyJoin(outputDir, "posts"), Filename("post", post, env.repr))
    ensures text == PostBlock(PostFields(post, env), env.dumps, env.repr) +
                    ProcessedContent(Rendered(post, "content", env.repr), site, env)
  {
    var content := Rendered(post, "content", env.repr);
    var processed := ProcessContent(content, site, env);
    var names := CollectCategoryNames(Get(post, "categories", List([])));
    var fields := [("title", Rendered(post, "title", env.repr)),
                   ("description", Str(Description(Rendered(post, "excerpt", env.repr), env))),
                   ("pubDate", Get(post, "date", Str(""))),
                   ("author", Author(post)),
                   ("tags", List(names)),
                   ("draft", Draft(post))];
    var block := WritePostBlock(fields, env.dumps, env.repr);
    text := block + processed;
    path := PyJoin(PyJoin(outputDir, "posts"), Filename("post", post, env.repr));
  }

  /** `convert_page_to_astro(page)`. */
  method ConvertPage(page: Record, site: String, outputDir: String, env: Oracles)
    returns (path: String, text: String)
    requires Parsable(Rendered(page, "content", env.repr))
    ensures path == PyJoin(PyJoin(outputDir, "pages"), Filename("page", page, env.repr))
    ensures text == ScalarBlock(PageFields(page, env.repr), env.dumps) +
                    ProcessedContent(Rendered(page, "content", env.repr), site, env)
  {
    var processed := ProcessContent(Rendered(page, "content", env.repr), site, env);
    var block := WriteScalarBlock(PageFields(page, env.repr), env.dumps);
    text := block + processed;
    path := PyJoin(PyJoin(outputDir, "pages"), Filename("page", page, env.repr));
  }

  /** Read line by line, a post is `---`, the title, description, date and author lines, a
      `tags:` line and one `  - name` line per category, the draft line, `---`, an empty line
      and the lines of the content, when no encoded value and no name holds a line feed. */
  lemma PostLayout(post: Record, env: Oracles, body: String)
    requires WellFormedPost(post, env.repr)
    requires forall v :: '\n' !in env.dumps(v)
    requires var names := CategoryNames(Get(post, "categories", List([])));
             forall k :: 0 <= k < |names| ==> '\n' !in PyStr(names[k], env.repr)
    requires !Rendered(post, "title", env.repr).List? && !Get(post, "date", Str("")).List?
    requires !Author(post).List?
    ensures var names := CategoryNames(Get(post, "categories", List([])));
            Split(PostBlock(PostFields(post, env), env.dumps, env.repr) + body, '\n') ==
              ["---",
               "title: " + env.dumps(Rendered(post, "title", env.repr)),
               "description: " + env.dumps(Str(Description(Rendered(post, "excerpt", env.repr), env))),
               "pubDate: " + env.dumps(Get(post, "date", Str(""))),
               "author: " + env.dumps(Author(post)),
               "tags:"] + ItemLines(names, env.repr) +
              ["draft: " + env.dumps(Draft(post)), "---", ""] + Split(body, '\n')
  {
    var fs := PostFields(post, env);
    var d, r := env.dumps, env.repr;
    var names := CategoryNames(Get(post, "categories", List([])));
    var t := Rendered(post, "title", env.repr);
    var e := Str(Description(Rendered(post, "excerpt", env.repr), env));
    var p := Get(post, "date", Str(""));
    var a := Author(post);
    var dr := Draft(post);
    var l0, l1, l2, l3, l5 := "title: " + d(t), "description: " + d(e), "pubDate: " + d(p),
                              "author: " + d(a), "draft: " + d(dr);
    assert fs == [("title", t), ("description", e), ("pubDate", p), ("author", a),
                  ("tags", List(names)), ("draft", dr)];
    calc {
      Split(PostBlock(fs, d, r) + body, '\n');
      { PostFieldsOneLine(post, env);
        PostDocumentLines(fs, d, r, body); }
      ["---"] + AllPostLines(fs, d, r) + ["---", ""] + Split(body, '\n');
      { PostFieldLines(("title", t), ("description", e), ("pubDate", p), ("author", a),
                       ("tags", List(names)), ("draft", dr), d, r);
        assert "title" + ": " == "title: " && "description" + ": " == "description: ";
        assert "pubDate" + ": " == "pubDate: " && "author" + ": " == "author: ";
        assert "tags" + ":" == "tags:" && "draft" + ": " == "draft: "; }
      ["---"] + ([l0, l1, l2, l3, "tags:"] + ItemLines(names, r) + [l5]) + ["---", ""] + Split(body, '\n');
      { LayoutFlatten(l0, l1, l2, l3, "tags:", ItemLines(names, r), l5, Split(body, '\n')); }
      ["---", l0, l1, l2, l3, "tags:"] + ItemLines(names, r) + [l5, "---", ""] + Split(body, '\n');
    }
  }

  lemma LayoutFlatten(a: String, b: String, c: String, d: String, e: String, xs: seq<String>,
                      f: String, tail: seq<String>)
    ensures ["---"] + ([a, b, c, d, e] + xs + [f]) + ["---", ""] + tail ==
            ["---", a, b, c, d, e] + xs + [f, "---", ""] + tail
  {
  }

  lemma PostFieldsOneLine(post: Record, env: Oracles)
    requires WellFormedPost(post, env.repr)
    requires forall v :: '\n' !in env.dumps(v)
    requires var names := CategoryNames(Get(post, "categories", List([])));
             forall k :: 0 <= k < |names| ==> '\n' !in PyStr(names[k], env.repr)
    requires !Rendered(post, "title", env.repr).List? && !Get(post, "date", Str("")).List?
    requires !Author(post).List?
    ensures OneLineEach(PostFields(post, env), env.dumps, env.repr)
  {
    var names := CategoryNames(Get(post, "categories", List([])));
    SixFieldsOneLine(Rendered(post, "title", env.repr),
                     Str(Description(Rendered(post, "excerpt", env.repr), env)),
                     Get(post, "date", Str("")), Author(post), names, Draft(post), env.dumps, env.repr);
  }

  /** Six fields, of which only the tags are a list, each fit on one line. */
  lemma SixFieldsOneLine(title: Value, description: Value, date: Value, author: Value,
                         names: seq<Value>, draft: Value, d: Value -> String, r: Value -> String)
    requires forall v :: '\n' !in d(v)
    requires forall k :: 0 <= k < |names| ==> '\n' !in PyStr(names[k], r)
    requires !title.List? && !description.List? && !date.List? && !author.List? && !draft.List?
    ensures OneLineEach([("title", title), ("description", description), ("pubDate", date),
                         ("author", author), ("tags", List(names)), ("draft", draft)], d, r)
  {
    var fs := [("title", title), ("description", description), ("pubDate", date),
               ("author", author), ("tags", List(names)), ("draft", draft)];
    forall i | 0 <= i < |fs| ensures fs[i].1.List? ==> i == 4 && fs[i].1.items == names { }
  }

  /** The lines of six fields of which only the fifth is a list. */
  lemma PostFieldLines(f0: Field, f1: Field, f2: Field, f3: Field, f4: Field, f5: Field,
                       d: Value -> String, r: Value -> String)
    requires !f0.1.List? && !f1.1.List? && !f2.1.List? && !f3.1.List? && f4.1.List? && !f5.1.List?
    ensures AllPostLines([f0, f1, f2, f3, f4, f5], d, r) ==
            [ScalarLine(f0.0, f0.1, d), ScalarLine(f1.0, f1.1, d), ScalarLine(f2.0, f2.1, d),
             ScalarLine(f3.0, f3.1, d), f4.0 + ":"] + ItemLines(f4.1.items, r) +
            [ScalarLine(f5.0, f5.1, d)]
  {
    var l0, l1, l2, l3 := ScalarLine(f0.0, f0.1, d), ScalarLine(f1.0, f1.1, d),
                          ScalarLine(f2.0, f2.1, d), ScalarLine(f3.0, f3.1, d);
    var l5 := ScalarLine(f5.0, f5.1, d);
    var items := ItemLines(f4.1.items, r);
    calc {
      AllPostLines([f0, f1, f2, f3, f4, f5], d, r);
      { assert [f0, f1, f2, f3, f4, f5] == [f0] + [f1, f2, f3, f4, f5];
        AllPostLinesCons(f0, [f1, f2, f3, f4, f5], d, r); }
      [l0] + AllPostLines([f1, f2, f3, f4, f5], d, r);
      { assert [f1, f2, f3, f4, f5] == [f1] + [f2, f3, f4, f5];
        AllPostLinesCons(f1, [f2, f3, f4, f5], d, r); }
      [l0] + ([l1] + AllPostLines([f2, f3, f4, f5], d, r));
      { assert [f2, f3, f4, f5] == [f2] + [f3, f4, f5];
        AllPostLinesCons(f2, [f3, f4, f5], d, r); }
      [l0] + ([l1] + ([l2] + AllPostLines([f3, f4, f5], d, r)));
      { assert [f3, f4, f5] == [f3] + [f4, f5];
        AllPostLinesCons(f3, [f4, f5], d, r); }
      [l0] + ([l1] + ([l2] + ([l3] + AllPostLines([f4, f5], d, r))));
      { assert [f4, f5] == [f4] + [f5];
        AllPostLinesCons(f4, [f5], d, r);
        assert [f5] == [f5] + [];
        AllPostLinesCons(f5, [], d, r); }
      [l0] + ([l1] + ([l2] + ([l3] + (([f4.0 + ":"] + items) + [l5]))));
      { SixLines(l0, l1, l2, l3, f4.0 + ":", items, l5); }
      [l0, l1, l2, l3, f4.0 + ":"] + items + [l5];
    }
  }

  lemma SixLines(a: String, b: String, c: String, d: String, e: String, xs: seq<String>, f: String)
    ensures [a] + ([b] + ([c] + ([d] + (([e] + xs) + [f])))) == [a, b, c, d, e] + xs + [f]
  {
  }

  /** The Astro page `create_astro_pages` writes, with the title and content unescaped. */
  function AstroPageText(title: String, content: String): String {
    Unlines([
      "---",
      "title: " + title,
      "description: ''",
      "---",
      "",
      "<Layout>",
      "  <div class=\"prose max-w-none\">",
      "    <h1>" + title + "</h1>",
      "    <div set:html=" + content + " />",
      "  </div>",
      "</Layout>"])
  }

  lemma FrontOneLine()
    ensures '\n' !in "title: " && '\n' !in "description: ''" && '\n' !in "<Layout>"
  {
  }

  lemma ProseOneLine()
    ensures '\n' !in "  <div class=\"prose max-w-none\">" && '\n' !in "    <h1>" && '\n' !in "</h1>"
  {
  }

  /** The first eight lines of the page, which hold the title. */
  function FrontLines(title: String): seq<String> {
    ["---", "title: " + title, "description: ''", "---", "", "<Layout>",
     "  <div class=\"prose max-w-none\">", "    <h1>" + title + "</h1>"]
  }

  lemma PageTextSplit(title: String, content: String)
    ensures AstroPageText(title, content) ==
            Unlines(FrontLines(title)) + Unlines(["    <div set:html=" + content + " />", "  </div>", "</Layout>"])
  {
    var front := FrontLines(title);
    var back := ["    <div set:html=" + content + " />", "  </div>", "</Layout>"];
    var all := front + back;
    assert all == ["---", "title: " + title, "description: ''", "---", "", "<Layout>",
                   "  <div class=\"prose max-w-none\">", "    <h1>" + title + "</h1>",
                   "    <div set:html=" + content + " />", "  </div>", "</Layout>"] by {
      forall i | 0 <= i < 11 ensures all[i] == if i < 8 then front[i] else back[i - 8] {
      }
    }
    UnlinesAppend(front, back);
  }

  lemma BackText(content: String)
    ensures Unlines(["    <div set:html=" + content + " />", "  </div>", "</Layout>"]) ==
            "    <div set:html=" + content + " />\n  </div>\n</Layout>\n"
  {
    var back := ["    <div set:html=" + content + " />", "  </div>", "</Layout>"];
    var e: seq<String> := [];
    assert back[1..][1..][1..] == e && Unlines(e) == [];
    assert Unlines(back[1..][1..]) == "</Layout>\n";
    assert Unlines(back[1..]) == "  </div>\n</Layout>\n";
  }

  /** Read line by line, the page is the frontmatter with the unquoted title, the layout
      and the heading with the title, then the lines of the `set:html` attribute written
      with the content as it is, provided that the title is a single line. */
  lemma AstroPageTextLines(title: String, content: String)
    requires '\n' !in title
    ensures Split(AstroPageText(title, content), '\n') ==
            ["---", "title: " + title, "description: ''", "---", "", "<Layout>",
             "  <div class=\"prose max-w-none\">", "    <h1>" + title + "</h1>"] +
            Split("    <div set:html=" + content + " />\n  </div>\n</Layout>\n", '\n')
  {
    FrontOneLine();
    ProseOneLine();
    var front := FrontLines(title);
    PageTextSplit(title, content);
    BackText(content);
    forall i | 0 <= i < |front| ensures '\n' !in front[i] {
    }
    SplitUnlines(front, "    <div set:html=" + content + " />\n  </div>\n</Layout>\n");
  }

  /** The file and text of a page with a slug. */
  function PageFile(page: Record, repr: Value -> String): (String, String) {
    var slug := Get(page, "slug", Str(""));
    (AstroPagePath(slug == Str("home"), PyStr(slug, repr)),
     AstroPageText(PyStr(Rendered(page, "title", repr), repr),
                   PyStr(Rendered(page, "content", repr), repr)))
  }

  /** The files `create_astro_pages` writes, in order. */
  function AstroPages(pages: seq<Record>, repr: Value -> String): seq<(String, String)> {
    if pages == [] then []
    else
      var last := pages[|pages| - 1];
      AstroPages(pages[..|pages| - 1], repr) + (if HasSlug(last) then [PageFile(last, repr)] else [])
  }

  /** `create_astro_pages(pages)`. */
  method CreateAstroPages(pages: seq<Record>, repr: Value -> String)
    returns (files: seq<(String, String)>)
    ensures files == AstroPages(pages, repr)
  {
    files := [];
    for i := 0 to |pages|
      invariant files == AstroPages(pages[..i], repr)
    {
      var page := pages[i];
      assert pages[..i + 1][..i] == pages[..i];
      var slug := Get(page, "slug", Str(""));
      if !PyTruthy(slug) {
        continue;
      }
      var title := Rendered(page, "title", repr);
      var content := Rendered(page, "content", repr);
      var text := AstroPageText(PyStr(title, repr), PyStr(content, repr));
      var path;
      if slug == Str("home") {
        path := PyJoin(PagesDir, "index.astro");
      } else {
        path := PyJoin(PagesDir, PyStr(slug, repr) + ".astro");
      }
      files := files + [(path, text)];
    }
    assert pages[..|pages|] == pages;
  }

  /** One file per record with a slug, in order, and each written file is the page file of a
      record with a slug. */
  lemma {:induction false} AstroPagesFromSlugs(pages: seq<Record>, repr: Value -> String)
    ensures AstroPages(pages, repr) == Seqs.Map((p: Record) => PageFile(p, repr), Seqs.Filter(HasSlug, pages))
  {
    if pages != [] {
      var init := pages[..|pages| - 1];
      var last := pages[|pages| - 1];
      AstroPagesFromSlugs(init, repr);
      assert pages == init + [last];
      Seqs.FilterAppend(HasSlug, init, last);
      if HasSlug(last) {
        Seqs.MapAppend((p: Record) => PageFile(p, repr), Seqs.Filter(HasSlug, init), last);
      }
    }
  }
}
