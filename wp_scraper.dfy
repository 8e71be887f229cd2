/** `src/scripts/wp-scraper.js`: a breadth-first crawl of a WordPress site from its base URL.
    Each page is fetched once, its asset URLs are made absolute, it is saved as
    `<out>/<path>/index.html`, and its same-site links join the back of the queue, until
    the queue is empty or `max` pages are saved. `fetch`, cheerio, `new URL`, `Number` and
    the file system are supplied by the caller. */
module WpScraper {
  import opened Text
  import opened Options
  import opened Html
  import Paths
  import Seqs

  type Path = Paths.Path

  /** A JavaScript number as `Number(s)` gives it; the infinities are not modelled. */
  datatype JsNumber = Finite(value: real) | NaN

  /** The libraries and the outside world as the script sees them. */
  datatype Env = Env(
    resolve: (String, String) -> Option<Url>,  // new URL(s, base); None when it throws
    parse: String -> Option<Url>,              // new URL(s)
    toNumber: String -> JsNumber,              // Number(s)
    fetch: String -> Option<String>,           // fetchHtml(url): the text of an ok response
    load: String -> Doc,                       // the elements of cheerio.load(html)
    dropAdminBar: Doc -> Doc,                  // $('#wpadminbar').remove(), with its contents
    render: Doc -> String,                     // $.html()
    writes: Path -> bool)                      // ensureDir and writeFileSync succeed

  // ---------------------------------------------------------------- command line

  datatype Args = Args(base: String, out: String, max: JsNumber)

  const Defaults: Args := Args("", "src/pages/site", Finite(30.0))

  predicate IsBaseFlag(a: String) {
    a == "--base" || a == "-b"
  }

  predicate IsOutFlag(a: String) {
    a == "--out" || a == "-o"
  }

  predicate IsMaxFlag(a: String) {
    a == "--max" || a == "-m"
  }

  /** The options after scanning `argv` from index `i` on: a flag takes the next argument
      and the scan resumes after it. A `--base` with nothing after it empties the base; a
      trailing `--out` or `--max` keeps its value. */
  function ScanArgs(env: Env, argv: seq<String>, i: nat, acc: Args): Args
    decreases |argv| - i
  {
    if i >= |argv| then acc
    else if IsBaseFlag(argv[i]) then
      ScanArgs(env, argv, i + 2, acc.(base := if i + 1 < |argv| then argv[i + 1] else ""))
    else if IsOutFlag(argv[i]) then
      ScanArgs(env, argv, i + 2, acc.(out := if i + 1 < |argv| then argv[i + 1] else acc.out))
    else if IsMaxFlag(argv[i]) then
      ScanArgs(env, argv, i + 2,
               acc.(max := if i + 1 < |argv| then env.toNumber(argv[i + 1]) else acc.max))
    else ScanArgs(env, argv, i + 1, acc)
  }

  /** What `parseArgs` returns: `None` for the usage error of an empty base, otherwise the
      options with one trailing `/` taken off the base. */
  function Parsed(env: Env, argv: seq<String>): Option<Args> {
    var a := ScanArgs(env, argv, 2, Defaults);
    if a.base == [] then None else Some(a.(base := DropOneTrailing(a.base, '/')))
  }

  /** `parseArgs(argv)`; `None` is the exit with the usage message. */
  method ParseArgs(env: Env, argv: seq<String>) returns (r: Option<Args>)
    ensures r == Parsed(env, argv)
  {
    var args := Defaults;
    var i := 2;
    while i < |argv|
      invariant 2 <= i
      invariant ScanArgs(env, argv, i, args) == ScanArgs(env, argv, 2, Defaults)
      decreases |argv| - i
    {
      var a := argv[i];
      if IsBaseFlag(a) {
        i := i + 1;
        args := args.(base := if i < |argv| then argv[i] else "");
      } else if IsOutFlag(a) {
        i := i + 1;
        args := args.(out := if i < |argv| then argv[i] else args.out);
      } else if IsMaxFlag(a) {
        i := i + 1;
        args := args.(max := if i < |argv| then env.toNumber(argv[i]) else args.max);
      }
      i := i + 1;
    }
    if args.base == [] {
      return None;
    }
    r := Some(args.(base := DropOneTrailing(args.base, '/')));
  }

  /** Without a base flag from `i` on, the base stays what it was. */
  lemma {:induction false} ScanKeepsBase(env: Env, argv: seq<String>, i: nat, acc: Args)
    requires forall j :: i <= j < |argv| ==> !IsBaseFlag(argv[j])
    ensures ScanArgs(env, argv, i, acc).base == acc.base
    decreases |argv| - i
  {
    if i < |argv| {
      var a := argv[i];
      if IsOutFlag(a) {
        ScanKeepsBase(env, argv, i + 2, acc.(out := if i + 1 < |argv| then argv[i + 1] else acc.out));
      } else if IsMaxFlag(a) {
        ScanKeepsBase(env, argv, i + 2,
                      acc.(max := if i + 1 < |argv| then env.toNumber(argv[i + 1]) else acc.max));
      } else {
        ScanKeepsBase(env, argv, i + 1, acc);
      }
    }
  }

  /** Without `--base` or `-b` the script stops with its usage message. */
  lemma MissingBaseFails(env: Env, argv: seq<String>)
    requires forall j :: 2 <= j < |argv| ==> !IsBaseFlag(argv[j])
    ensures Parsed(env, argv).None?
  {
    ScanKeepsBase(env, argv, 2, Defaults);
  }

  /** Given only a base, the options are the base without one trailing slash, the output
      directory `src/pages/site` and at most 30 pages. */
  lemma BaseOnly(env: Env, node: String, script: String, base: String)
    requires base != []
    ensures Parsed(env, [node, script, "--base", base]) ==
            Some(Args(DropOneTrailing(base, '/'), "src/pages/site", Finite(30.0)))
  {
    var argv := [node, script, "--base", base];
    assert IsBaseFlag(argv[2]);
    assert ScanArgs(env, argv, 2, Defaults) == ScanArgs(env, argv, 4, Defaults.(base := base));
  }

  /** Exactly one trailing slash is taken off the base. */
  lemma OneSlashDropped(env: Env, node: String, script: String, base: String)
    requires base != [] && base[|base| - 1] != '/'
    ensures var r := Parsed(env, [node, script, "--base", base + "/"]); r.Some? && r.value.base == base
    ensures var r := Parsed(env, [node, script, "--base", base + "//"]); r.Some? && r.value.base == base + "/"
  {
    BaseOnly(env, node, script, base + "/");
    BaseOnly(env, node, script, base + "//");
    assert (base + "/")[..|base|] == base;
    assert (base + "//")[..|base| + 1] == base + "/";
  }

  // ---------------------------------------------------------------- URL filters

  /** The paths `/\.(png|jpe?g|webp|gif|svg|js|css)$/i` matches. */
  predicate AssetPath(p: String) {
    || EndsWithCi(p, ".png") || EndsWithCi(p, ".jpg") || EndsWithCi(p, ".jpeg")
    || EndsWithCi(p, ".webp") || EndsWithCi(p, ".gif") || EndsWithCi(p, ".svg")
    || EndsWithCi(p, ".js") || EndsWithCi(p, ".css")
  }

  /** WordPress's own endpoints, by case-sensitive prefix. */
  predicate AdminPath(p: String) {
    StartsWith(p, "/wp-json") || StartsWith(p, "/wp-admin") || StartsWith(p, "/wp-login")
  }

  /** Downloads, by case-sensitive suffix, and assets. */
  predicate FilePath(p: String) {
    EndsWith(p, ".xml") || EndsWith(p, ".pdf") || EndsWith(p, ".zip") || AssetPath(p)
  }

  /** `isInternalUrl(url, baseOrigin)`: both URLs parse, they share the origin, and the path
      is neither a WordPress endpoint nor a file. */
  predicate IsInternal(env: Env, url: String, baseOrigin: String) {
    var u := env.resolve(url, baseOrigin);
    var b := env.parse(baseOrigin);
    && u.Some? && b.Some? && u.value.origin == b.value.origin
    && !AdminPath(u.value.pathname) && !FilePath(u.value.pathname)
  }

  /** An internal URL is on the base's origin, outside the WordPress endpoints, and not a
      file or an asset. */
  lemma InternalExcludes(env: Env, url: String, baseOrigin: String)
    requires IsInternal(env, url, baseOrigin)
    ensures var u := env.resolve(url, baseOrigin).value;
            var p := u.pathname;
            && u.origin == env.parse(baseOrigin).value.origin
            && !StartsWith(p, "/wp-json") && !StartsWith(p, "/wp-admin") && !StartsWith(p, "/wp-login")
            && !EndsWith(p, ".xml") && !EndsWith(p, ".pdf") && !EndsWith(p, ".zip")
            && !EndsWithCi(p, ".png") && !EndsWithCi(p, ".jpg") && !EndsWithCi(p, ".jpeg")
            && !EndsWithCi(p, ".webp") && !EndsWithCi(p, ".gif") && !EndsWithCi(p, ".svg")
            && !EndsWithCi(p, ".js") && !EndsWithCi(p, ".css")
  {
  }

  /** Every other same-origin URL is internal. */
  lemma InternalIncludes(env: Env, url: String, baseOrigin: String)
    requires env.resolve(url, baseOrigin).Some? && env.parse(baseOrigin).Some?
    requires env.resolve(url, baseOrigin).value.origin == env.parse(baseOrigin).value.origin
    requires var p := env.resolve(url, baseOrigin).value.pathname; !AdminPath(p) && !FilePath(p)
    ensures IsInternal(env, url, baseOrigin)
  {
  }

  lemma NotEndsWithCi(s: String, e: String)
    requires s != [] && e != [] && Lower(s[|s| - 1]) != e[|e| - 1]
    ensures !EndsWithCi(s, e)
  {
    if |e| <= |s| {
      assert LowerAll(s[|s| - |e|..])[|e| - 1] == Lower(s[|s| - 1]);
    }
  }

  /** The image test ignores case and the download test does not: `/Logo.PNG` is left out of
      the crawl, `/feed.XML` is not. */
  lemma SuffixCase()
    ensures AssetPath("/Logo.PNG")
    ensures !FilePath("/feed.XML")
  {
    PngIsAsset();
    XmlIsNotFile();
  }

  lemma PngIsAsset()
    ensures AssetPath("/Logo.PNG")
  {
    var png := "/Logo.PNG";
    assert png[|png| - 4..] == ".PNG";
    assert LowerAll(".PNG") == ".png";
  }

  lemma XmlIsNotAsset()
    ensures !AssetPath("/feed.XML")
  {
    var xml := "/feed.XML";
    assert xml[|xml| - 1] == 'L' && Lower('L') == 'l';
    NotEndsWithCi(xml, ".png");
    NotEndsWithCi(xml, ".jpg");
    NotEndsWithCi(xml, ".jpeg");
    NotEndsWithCi(xml, ".webp");
    NotEndsWithCi(xml, ".gif");
    NotEndsWithCi(xml, ".svg");
    NotEndsWithCi(xml, ".js");
    NotEndsWithCi(xml, ".css");
  }

  lemma XmlIsNotFile()
    ensures !FilePath("/feed.XML")
  {
    var xml := "/feed.XML";
    assert xml[|xml| - 4..] == ".XML";
    XmlIsNotAsset();
  }

  // ---------------------------------------------------------------- output path

  /** `toOutPath(baseOrigin, pageUrl, outRoot)`: the URL's pathname without one trailing
      slash, joined below the output directory, then `index.html`; `None` when the URL
      class rejects the page URL. */
  function ToOutPath(env: Env, baseOrigin: String, pageUrl: String, outRoot: Path): Option<Path> {
    var u := env.resolve(pageUrl, baseOrigin);
    if u.None? then None
    else
      var p := DropOneTrailing(u.value.pathname, '/');
      if p == [] then Some(Paths.JoinPath(outRoot, "index.html"))
      else Some(Paths.JoinPath(Paths.JoinPath(outRoot, p), "index.html"))
  }

  lemma JoinIndex(base: Path)
    ensures Paths.JoinPath(base, "index.html") == base + ["index.html"]
  {
    var name := "index.html";
    assert forall i :: 0 <= i < |name| ==> name[i] != '/';
    SplitNone(name, '/');
    assert name != [] && name != "." && name != "..";
    assert [name][1..] == [];
    assert Paths.Resolve(base, [name]) == Paths.Resolve(base + [name], []);
  }

  /** The site's root `/` is saved as `<out>/index.html`. */
  lemma ToOutPathRoot(env: Env, baseOrigin: String, pageUrl: String, outRoot: Path)
    requires env.resolve(pageUrl, baseOrigin).Some?
    requires var p := env.resolve(pageUrl, baseOrigin).value.pathname; p == "/" || p == "//"
    ensures ToOutPath(env, baseOrigin, pageUrl, outRoot) == Some(outRoot + ["index.html"])
  {
    var p := DropOneTrailing(env.resolve(pageUrl, baseOrigin).value.pathname, '/');
    assert p == [] || p == "/";
    if p == "/" {
      var e: String := [];
      assert p == e + ['/'] + e;
      SplitCons(e, '/', e);
      assert Split(e, '/') == [e];
      assert Split(p, '/') == [e, e];
      assert [e, e][1..] == [e] && [e][1..] == [];
      assert Paths.Resolve(outRoot, [e]) == outRoot;
      assert Paths.Resolve(outRoot, [e, e]) == outRoot;
    }
    JoinIndex(outRoot);
  }

  /** A page whose path is `/a/b` or `/a/b/` is saved as `<out>/a/b/index.html`. */
  lemma ToOutPathSegments(env: Env, baseOrigin: String, pageUrl: String, outRoot: Path, segs: Path)
    requires Paths.Normal(segs) && segs != []
    requires env.resolve(pageUrl, baseOrigin).Some?
    requires var p := env.resolve(pageUrl, baseOrigin).value.pathname;
             p == Paths.Render(segs) || p == Paths.Render(segs) + "/"
    ensures ToOutPath(env, baseOrigin, pageUrl, outRoot) == Some(outRoot + segs + ["index.html"])
  {
    var r := Paths.Render(segs);
    var p := DropOneTrailing(env.resolve(pageUrl, baseOrigin).value.pathname, '/');
    JoinLast(segs);
    assert (r + "/")[..|r|] == r;
    assert p == r;
    Paths.JoinRendered(outRoot, segs);
    JoinIndex(outRoot + segs);
  }

  /** The last character of a rendered path ends its last segment, so it is not `/`. */
  lemma JoinLast(segs: Path)
    requires Paths.Normal(segs) && segs != []
    ensures var r := Paths.Render(segs); r != [] && r[|r| - 1] != '/'
  {
    var last := segs[|segs| - 1];
    assert Paths.IsName(last);
    LastOfJoin(segs, '/');
    assert last[|last| - 1] in last;
  }

  lemma {:induction false} LastOfJoin(ls: seq<String>, c: char)
    requires ls != [] && ls[|ls| - 1] != []
    ensures var j := Join(ls, c);
            j != [] && j[|j| - 1] == ls[|ls| - 1][|ls[|ls| - 1]| - 1]
  {
    if |ls| > 1 {
      LastOfJoin(ls[1..], c);
      assert Join(ls, c) == ls[0] + [c] + Join(ls[1..], c);
    }
  }

  /** A page and the same page with a trailing slash are saved to the same file. */
  lemma ToOutPathTrailingSlash(env: Env, baseOrigin: String, a: String, b: String, outRoot: Path)
    requires env.resolve(a, baseOrigin).Some? && env.resolve(b, baseOrigin).Some?
    requires var p := env.resolve(b, baseOrigin).value.pathname;
             env.resolve(a, baseOrigin).value.pathname == p + "/" && !EndsWith(p, "/")
    ensures ToOutPath(env, baseOrigin, a, outRoot) == ToOutPath(env, baseOrigin, b, outRoot)
  {
    var p := env.resolve(b, baseOrigin).value.pathname;
    assert (p + "/")[..|p|] == p;
  }

  // ---------------------------------------------------------------- assets

  /** The attribute `name` of `e` made absolute against the origin, or kept when the URL
      class rejects it. */
  function Absolutized(e: Element, name: String, origin: String, env: Env): Element {
    var u := env.resolve(Attr(e, name), origin);
    if u.Some? then SetAttr(e, name, u.value.href) else e
  }

  /** `img` with a non-empty `src`. */
  function ImgRule(origin: String, env: Env, e: Element): Element {
    if e.tag == "img" && HasValue(e, "src") then Absolutized(e, "src", origin, env) else e
  }

  /** `link[rel="stylesheet"]` with a non-empty `href`. */
  function StylesheetRule(origin: String, env: Env, e: Element): Element {
    if e.tag == "link" && Attr(e, "rel") == "stylesheet" && HasValue(e, "href")
    then Absolutized(e, "href", origin, env)
    else e
  }

  /** `script[src]` with a non-empty `src`. */
  function ScriptRule(origin: String, env: Env, e: Element): Element {
    if e.tag == "script" && HasValue(e, "src") then Absolutized(e, "src", origin, env) else e
  }

  function ImgStep(origin: String, env: Env): Element -> Element {
    e => ImgRule(origin, env, e)
  }

  function StylesheetStep(origin: String, env: Env): Element -> Element {
    e => StylesheetRule(origin, env, e)
  }

  function ScriptStep(origin: String, env: Env): Element -> Element {
    e => ScriptRule(origin, env, e)
  }

  /** The document `rewriteAssets` leaves, or `None` when `new URL(baseOrigin)` throws. */
  function AssetsAbsolute(doc: Doc, origin: String, env: Env): Option<Doc> {
    if env.parse(origin).None? then None
    else Some(Seqs.Map(ScriptStep(origin, env),
                Seqs.Map(StylesheetStep(origin, env), Seqs.Map(ImgStep(origin, env), doc))))
  }

  /** An asset keeps its tag and every attribute but the one its selector names, and that
      one is the resolved URL or what it was. */
  lemma AssetRulesEffect(origin: String, env: Env, e: Element)
    ensures var r := ScriptRule(origin, env, StylesheetRule(origin, env, ImgRule(origin, env, e)));
            var name := if e.tag == "link" then "href" else "src";
            && r.tag == e.tag
            && (forall n :: n != name ==> Attr(r, n) == Attr(e, n))
            && (Attr(r, name) == Attr(e, name) ||
                (env.resolve(Attr(e, name), origin).Some? &&
                 Attr(r, name) == env.resolve(Attr(e, name), origin).value.href))
            && (e.tag != "img" && e.tag != "link" && e.tag != "script" ==> r == e)
  {
  }

  /** `rewriteAssets($, baseOrigin)`: images, stylesheet links, then scripts, each selection
      updated in place; `false` when the base origin does not parse, with nothing changed. */
  method RewriteAssets(doc: array<Element>, origin: String, env: Env) returns (ok: bool)
    modifies doc
    ensures ok == AssetsAbsolute(old(doc[..]), origin, env).Some?
    ensures ok ==> doc[..] == AssetsAbsolute(old(doc[..]), origin, env).value
    ensures !ok ==> doc[..] == old(doc[..])
  {
    if env.parse(origin).None? {
      return false;
    }
    MapInPlace(doc, ImgStep(origin, env));
    MapInPlace(doc, StylesheetStep(origin, env));
    MapInPlace(doc, ScriptStep(origin, env));
    ok := true;
  }

  // ---------------------------------------------------------------- links

  predicate LineTerminator(c: char) {
    c == '\n' || c == '\r' || c == '\U{2028}' || c == '\U{2029}'
  }

  /** `s.replace(/#.*$/, '')`: cut at the first `#` that no line terminator follows. */
  function CutFragment(s: String): (r: String)
    ensures StartsWith(s, r)
    ensures '#' !in s ==> r == s
    ensures (forall i :: 0 <= i < |s| ==> !LineTerminator(s[i])) ==> '#' !in r
  {
    if s == [] then []
    else if s[0] == '#' && forall i :: 1 <= i < |s| ==> !LineTerminator(s[i]) then []
    else
      var t := CutFragment(s[1..]);
      assert (forall i :: 0 <= i < |s| ==> !LineTerminator(s[i])) ==>
             forall i :: 0 <= i < |s[1..]| ==> !LineTerminator(s[1..][i]);
      [s[0]] + t
  }

  /** `/#.*$/` matches at `k`: a `#` with no line terminator after it (without the `m` flag
      `$` is the end of the text, and `.` does not match a line terminator). */
  predicate FragmentAt(s: String, k: nat) {
    k < |s| && s[k] == '#' && forall i :: k < i < |s| ==> !LineTerminator(s[i])
  }

  /** The replacement keeps the text before the leftmost match, or all of it when there is
      none. */
  lemma {:induction false} CutFragmentMeans(s: String, k: nat)
    requires k <= |s| && (k == |s| || FragmentAt(s, k))
    requires forall j :: 0 <= j < k ==> !FragmentAt(s, j)
    ensures CutFragment(s) == s[..k]
    decreases |s|
  {
    if s != [] {
      if k == 0 {
        assert FragmentAt(s, 0);
      } else {
        assert !FragmentAt(s, 0);
        forall j | 0 <= j < k - 1 ensures !FragmentAt(s[1..], j) {
          assert !FragmentAt(s, j + 1);
        }
        assert k - 1 == |s[1..]| || FragmentAt(s[1..], k - 1) by {
          if k < |s| {
            assert FragmentAt(s, k);
          }
        }
        CutFragmentMeans(s[1..], k - 1);
        assert s[..k] == [s[0]] + s[1..][..k - 1];
      }
    }
  }

  /** What one element adds to the queue: the link of an `a` with a non-empty `href`,
      resolved against the origin and cut at its fragment, when it is internal and not yet
      visited. */
  function LinkOf(env: Env, origin: String, visited: seq<String>, e: Element): seq<String> {
    if e.tag != "a" || !HasValue(e, "href") then []
    else
      var u := env.resolve(Attr(e, "href"), origin);
      if u.None? then []
      else
        var normalized := CutFragment(u.value.href);
        if IsInternal(env, normalized, origin) && normalized !in visited then [normalized] else []
  }

  /** The links a saved page adds to the queue, in document order. */
  function Discovered(env: Env, origin: String, visited: seq<String>, doc: Doc): seq<String>
    decreases |doc|
  {
    if doc == [] then []
    else Discovered(env, origin, visited, doc[..|doc| - 1]) + LinkOf(env, origin, visited, doc[|doc| - 1])
  }

  /** Every discovered link is internal and was not visited. */
  lemma {:induction false} DiscoveredInternal(env: Env, origin: String, visited: seq<String>, doc: Doc)
    ensures forall x :: x in Discovered(env, origin, visited, doc) ==>
              IsInternal(env, x, origin) && x !in visited
    decreases |doc|
  {
    if doc != [] {
      DiscoveredInternal(env, origin, visited, doc[..|doc| - 1]);
    }
  }

  /** The `$('a[href]').each` loop: each accepted link is pushed on the queue. */
  method DiscoverLinks(env: Env, origin: String, visited: seq<String>, doc: Doc, queue: seq<String>)
    returns (q: seq<String>)
    ensures q == queue + Discovered(env, origin, visited, doc)
  {
    q := queue;
    for k := 0 to |doc|
      invariant q == queue + Discovered(env, origin, visited, doc[..k])
    {
      assert doc[..k + 1][..k] == doc[..k];
      var e := doc[k];
      if e.tag == "a" && HasValue(e, "href") {
        var u := env.resolve(Attr(e, "href"), origin);
        if u.Some? {
          var normalized := CutFragment(u.value.href);
          if IsInternal(env, normalized, origin) && normalized !in visited {
            q := q + [normalized];
          }
        }
      }
    }
    assert doc[..|doc|] == doc;
  }

  // ---------------------------------------------------------------- one page

  /** A saved page: where it went, its text, and the document its links come from. */
  datatype Page = Page(path: Path, html: String, doc: Doc)

  /** The `try` block of the crawl for the URL `current`: `None` when fetching, rewriting,
      the output path or the write throws. */
  function Outcome(env: Env, origin: String, out: Path, current: String): Option<Page> {
    var html := env.fetch(current);
    if html.None? then None
    else
      var doc := AssetsAbsolute(env.dropAdminBar(env.load(html.value)), origin, env);
      var p := ToOutPath(env, origin, current, out);
      if doc.None? || p.None? || !env.writes(p.value) then None
      else Some(Page(p.value, env.render(doc.value), doc.value))
  }

  /** Fetch, clean, rewrite and place one page. */
  method VisitPage(env: Env, origin: String, out: Path, current: String) returns (page: Option<Page>)
    ensures page == Outcome(env, origin, out, current)
  {
    var html := env.fetch(current);
    if html.None? {
      return None;
    }
    var elements := env.dropAdminBar(env.load(html.value));
    var doc := new Element[|elements|](i requires 0 <= i < |elements| => elements[i]);
    assert doc[..] == elements;
    var ok := RewriteAssets(doc, origin, env);
    if !ok {
      return None;
    }
    var outFile := ToOutPath(env, origin, current, out);
    if outFile.None? || !env.writes(outFile.value) {
      return None;
    }
    page := Some(Page(outFile.value, env.render(doc[..]), doc[..]));
  }

  // ---------------------------------------------------------------- the crawl

  /** The crawl's state: the queue, the visited URLs in the order they were taken (the
      insertion order of the `Set`), the number of saved pages, and the files. */
  datatype Crawl = Crawl(queue: seq<String>, visited: seq<String>, count: nat, files: map<Path, String>)

  /** `count < max`. */
  predicate Below(count: nat, max: JsNumber) {
    max.Finite? && (count as real) < max.value
  }

  /** A page count the crawl cannot reach while it is below `max`. */
  function Cap(max: JsNumber): (c: nat)
    ensures forall n: nat :: Below(n, max) ==> n < c
  {
    if max.NaN? || max.value <= 0.0 then 0 else max.value.Floor + 1
  }

  /** The visit of the head of the queue, a URL not yet visited: it joins the visited URLs
      and, if the page is saved, the page is counted, written, and its links are queued
      behind the rest. */
  function Visit(env: Env, origin: String, out: Path, s: Crawl): (r: Crawl)
    requires s.queue != []
    ensures |r.queue| >= |s.queue| - 1 && r.queue[..|s.queue| - 1] == s.queue[1..]
    ensures r.visited == s.visited + [s.queue[0]]
    ensures r.count == s.count + 1 || (r.count == s.count && |r.queue| == |s.queue| - 1)
  {
    var current := s.queue[0];
    var rest := s.queue[1..];
    var visited := s.visited + [current];
    var page := Outcome(env, origin, out, current);
    if page.None? then Crawl(rest, visited, s.count, s.files)
    else
      var q := rest + Discovered(env, origin, visited, page.value.doc);
      assert q[..|rest|] == rest;
      Crawl(q, visited, s.count + 1, s.files[page.value.path := page.value.html])
  }

  /** One turn of the `while` loop: the head of the queue is taken; an empty or visited URL
      is dropped, any other is visited. */
  function Step(env: Env, origin: String, out: Path, s: Crawl): (r: Crawl)
    requires s.queue != []
    ensures |r.queue| >= |s.queue| - 1 && r.queue[..|s.queue| - 1] == s.queue[1..]
    ensures |r.visited| >= |s.visited| && r.visited[..|s.visited|] == s.visited
    ensures r.count == s.count + 1 || (r.count == s.count && |r.queue| == |s.queue| - 1)
  {
    if s.queue[0] == [] || s.queue[0] in s.visited then s.(queue := s.queue[1..])
    else
      var r := Visit(env, origin, out, s);
      assert r.visited[..|s.visited|] == s.visited;
      r
  }

  /** The state once the loop ends: the queue is empty or `max` pages are saved. */
  function Crawled(env: Env, origin: String, out: Path, max: JsNumber, s: Crawl): (r: Crawl)
    ensures r.queue == [] || !Below(r.count, max)
    ensures |r.visited| >= |s.visited| && r.visited[..|s.visited|] == s.visited
    decreases Cap(max) - s.count, |s.queue|
  {
    if s.queue != [] && Below(s.count, max) then
      var t := Crawled(env, origin, out, max, Step(env, origin, out, s));
      assert t.visited[..|s.visited|] == s.visited by {
        var n := Step(env, origin, out, s);
        assert t.visited[..|n.visited|] == n.visited;
        assert t.visited[..|n.visited|][..|s.visited|] == t.visited[..|s.visited|];
      }
      t
    else s
  }

  /** The crawl begins with the base URL alone in the queue. */
  function Start(base: String, files: map<Path, String>): Crawl {
    Crawl([base], [], 0, files)
  }

  /** `crawlAndSave({ base, out, max })` on the files `files0`; `None` when `new URL(base)`
      throws before the loop, which ends the script. */
  method CrawlAndSave(env: Env, base: String, out: Path, max: JsNumber, files0: map<Path, String>)
    returns (r: Option<Crawl>)
    ensures env.parse(base).None? ==> r.None?
    ensures env.parse(base).Some? ==>
              r == Some(Crawled(env, env.parse(base).value.origin, out, max, Start(base, files0)))
  {
    var b := env.parse(base);
    if b.None? {
      return None;
    }
    var origin := b.value.origin;
    var queue := [base];
    var visited: seq<String> := [];
    var count := 0;
    var files := files0;
    while queue != [] && Below(count, max)
      invariant Crawled(env, origin, out, max, Crawl(queue, visited, count, files)) ==
                Crawled(env, origin, out, max, Start(base, files0))
      decreases Cap(max) - count, |queue|
    {
      ghost var s := Crawl(queue, visited, count, files);
      var current := queue[0];
      queue := queue[1..];
      if current != [] && current !in visited {
        visited := visited + [current];
        var page := VisitPage(env, origin, out, current);
        if page.Some? {
          files := files[page.value.path := page.value.html];
          count := count + 1;
          queue := DiscoverLinks(env, origin, visited, page.value.doc, queue);
        }
      }
      assert Crawl(queue, visited, count, files) == Step(env, origin, out, s);
    }
    r := Some(Crawl(queue, visited, count, files));
  }

  /** `main()`: the options, the output directory made absolute against `cwd`, and the crawl;
      `None` when the script exits early. */
  method Scrape(env: Env, argv: seq<String>, cwd: Path, files0: map<Path, String>)
    returns (r: Option<Crawl>)
    ensures Parsed(env, argv).None? ==> r.None?
    ensures Parsed(env, argv).Some? ==>
              var a := Parsed(env, argv).value;
              var o := env.parse(a.base);
              r == if o.None? then None
                   else Some(Crawled(env, o.value.origin, Paths.Absolute(cwd, a.out), a.max,
                                     Start(a.base, files0)))
  {
    var args := ParseArgs(env, argv);
    if args.None? {
      return None;
    }
    r := CrawlAndSave(env, args.value.base, Paths.Absolute(cwd, args.value.out), args.value.max, files0);
  }

  // ---------------------------------------------------------------- what the crawl keeps

  /** How many of `urls` the crawl saves. */
  function Saves(env: Env, origin: String, out: Path, urls: seq<String>): nat
    decreases |urls|
  {
    if urls == [] then 0
    else Saves(env, origin, out, urls[..|urls| - 1]) +
         (if Outcome(env, origin, out, urls[|urls| - 1]).Some? then 1 else 0)
  }

  /** A visited URL was saved to `p`. */
  ghost predicate SavedTo(env: Env, origin: String, out: Path, visited: seq<String>, p: Path) {
    exists j :: 0 <= j < |visited| && Outcome(env, origin, out, visited[j]).Some? &&
                Outcome(env, origin, out, visited[j]).value.path == p
  }

  /** The URL the crawl starts from, or one its pages link to. */
  predicate Crawlable(env: Env, origin: String, base: String, u: String) {
    u == base || IsInternal(env, u, origin)
  }

  predicate AllCrawlable(env: Env, origin: String, base: String, q: seq<String>)
    decreases |q|
  {
    q == [] || (Crawlable(env, origin, base, q[0]) && AllCrawlable(env, origin, base, q[1..]))
  }

  lemma {:induction false} AllCrawlableAppend(env: Env, origin: String, base: String, a: seq<String>, b: seq<String>)
    ensures AllCrawlable(env, origin, base, a + b) <==>
            AllCrawlable(env, origin, base, a) && AllCrawlable(env, origin, base, b)
    decreases |a|
  {
    if a == [] {
      assert a + b == b;
    } else {
      assert (a + b)[0] == a[0] && (a + b)[1..] == a[1..] + b;
      AllCrawlableAppend(env, origin, base, a[1..], b);
    }
  }

  lemma {:induction false} AllCrawlableMeans(env: Env, origin: String, base: String, q: seq<String>)
    ensures AllCrawlable(env, origin, base, q) <==>
            forall i :: 0 <= i < |q| ==> Crawlable(env, origin, base, q[i])
    decreases |q|
  {
    if q != [] {
      AllCrawlableMeans(env, origin, base, q[1..]);
      assert forall i :: 1 <= i < |q| ==> q[1..][i - 1] == q[i];
    }
  }

  /** The links of a page are all crawlable. */
  lemma {:induction false} DiscoveredCrawlable(env: Env, origin: String, base: String, visited: seq<String>, doc: Doc)
    ensures AllCrawlable(env, origin, base, Discovered(env, origin, visited, doc))
    decreases |doc|
  {
    if doc != [] {
      var init := doc[..|doc| - 1];
      DiscoveredCrawlable(env, origin, base, visited, init);
      var l := LinkOf(env, origin, visited, doc[|doc| - 1]);
      assert AllCrawlable(env, origin, base, l) by {
        if l != [] { assert l[1..] == []; }
      }
      AllCrawlableAppend(env, origin, base, Discovered(env, origin, visited, init), l);
    }
  }

  /** Every file written is one the site already had or one a visited page was saved to. */
  ghost predicate FilesFrom(env: Env, origin: String, out: Path, files0: map<Path, String>,
                            visited: seq<String>, files: map<Path, String>) {
    forall p :: p in files ==> p in files0 || SavedTo(env, origin, out, visited, p)
  }

  /** What holds throughout the crawl: no URL is visited twice; only the base and internal
      links are ever queued or visited; the count is the number of visited pages that were
      saved; and every file is one the crawl started with or the output of a visited page. */
  ghost predicate Inv(env: Env, origin: String, out: Path, base: String, files0: map<Path, String>, s: Crawl) {
    && Seqs.Distinct(s.visited)
    && AllCrawlable(env, origin, base, s.queue)
    && AllCrawlable(env, origin, base, s.visited)
    && s.count == Saves(env, origin, out, s.visited)
    && FilesFrom(env, origin, out, files0, s.visited, s.files)
  }

  lemma StartInv(env: Env, origin: String, out: Path, base: String, files0: map<Path, String>)
    ensures Inv(env, origin, out, base, files0, Start(base, files0))
  {
  }

  lemma SavesSnoc(env: Env, origin: String, out: Path, urls: seq<String>, u: String)
    ensures Saves(env, origin, out, urls + [u]) ==
            Saves(env, origin, out, urls) + (if Outcome(env, origin, out, u).Some? then 1 else 0)
  {
    assert (urls + [u])[..|urls|] == urls;
  }

  /** A visit keeps the visited URLs distinct. */
  lemma VisitKeepsDistinct(visited: seq<String>, u: String)
    requires Seqs.Distinct(visited) && u !in visited
    ensures Seqs.Distinct(visited + [u])
  {
    forall i | 0 <= i < |visited| ensures (visited + [u])[i] == visited[i] { }
  }

  /** The files after a visit that saved `page`. */
  lemma VisitKeepsFiles(env: Env, origin: String, out: Path, files0: map<Path, String>, s: Crawl)
    requires s.queue != [] && FilesFrom(env, origin, out, files0, s.visited, s.files)
    ensures var t := Visit(env, origin, out, s); FilesFrom(env, origin, out, files0, t.visited, t.files)
  {
    var u := s.queue[0];
    var v := s.visited + [u];
    var page := Outcome(env, origin, out, u);
    forall p | SavedTo(env, origin, out, s.visited, p) ensures SavedTo(env, origin, out, v, p) {
      var j :| 0 <= j < |s.visited| && Outcome(env, origin, out, s.visited[j]).Some? &&
               Outcome(env, origin, out, s.visited[j]).value.path == p;
      assert v[j] == s.visited[j];
    }
    if page.Some? {
      assert v[|s.visited|] == u;
      assert Visit(env, origin, out, s).files == s.files[page.value.path := page.value.html];
    } else {
      assert Visit(env, origin, out, s).files == s.files;
    }
  }

  lemma VisitKeepsCount(env: Env, origin: String, out: Path, s: Crawl)
    requires s.queue != [] && s.count == Saves(env, origin, out, s.visited)
    ensures var t := Visit(env, origin, out, s); t.count == Saves(env, origin, out, t.visited)
  {
    SavesSnoc(env, origin, out, s.visited, s.queue[0]);
  }

  lemma VisitKeepsQueue(env: Env, origin: String, out: Path, base: String, s: Crawl)
    requires s.queue != [] && AllCrawlable(env, origin, base, s.queue)
    ensures AllCrawlable(env, origin, base, Visit(env, origin, out, s).queue)
  {
    var visited := s.visited + [s.queue[0]];
    var page := Outcome(env, origin, out, s.queue[0]);
    if page.Some? {
      var found := Discovered(env, origin, visited, page.value.doc);
      assert Visit(env, origin, out, s).queue == s.queue[1..] + found;
      DiscoveredCrawlable(env, origin, base, visited, page.value.doc);
      AllCrawlableAppend(env, origin, base, s.queue[1..], found);
    }
  }

  lemma VisitKeepsVisited(env: Env, origin: String, out: Path, base: String, s: Crawl)
    requires s.queue != [] && s.queue[0] !in s.visited
    requires Seqs.Distinct(s.visited) && AllCrawlable(env, origin, base, s.visited)
    requires AllCrawlable(env, origin, base, s.queue)
    ensures var t := Visit(env, origin, out, s);
            Seqs.Distinct(t.visited) && AllCrawlable(env, origin, base, t.visited)
  {
    VisitKeepsDistinct(s.visited, s.queue[0]);
    assert AllCrawlable(env, origin, base, [s.queue[0]]);
    AllCrawlableAppend(env, origin, base, s.visited, [s.queue[0]]);
  }

  /** Visiting a URL that is not yet visited keeps the invariant. */
  lemma VisitInv(env: Env, origin: String, out: Path, base: String, files0: map<Path, String>, s: Crawl)
    requires s.queue != [] && s.queue[0] !in s.visited
    requires Inv(env, origin, out, base, files0, s)
    ensures Inv(env, origin, out, base, files0, Visit(env, origin, out, s))
  {
    VisitKeepsFiles(env, origin, out, files0, s);
    VisitKeepsCount(env, origin, out, s);
    VisitKeepsQueue(env, origin, out, base, s);
    VisitKeepsVisited(env, origin, out, base, s);
  }

  /** Each turn of the loop keeps the invariant. */
  lemma StepInv(env: Env, origin: String, out: Path, base: String, files0: map<Path, String>, s: Crawl)
    requires s.queue != [] && Inv(env, origin, out, base, files0, s)
    ensures Inv(env, origin, out, base, files0, Step(env, origin, out, s))
  {
    if s.queue[0] == [] || s.queue[0] in s.visited {
      assert Step(env, origin, out, s) == s.(queue := s.queue[1..]);
    } else {
      VisitInv(env, origin, out, base, files0, s);
      assert Step(env, origin, out, s) == Visit(env, origin, out, s);
    }
  }

  /** The invariant holds when the loop ends. */
  lemma {:induction false} CrawledInv(env: Env, origin: String, out: Path, max: JsNumber,
                                      base: String, files0: map<Path, String>, s: Crawl)
    requires Inv(env, origin, out, base, files0, s)
    ensures Inv(env, origin, out, base, files0, Crawled(env, origin, out, max, s))
    decreases Cap(max) - s.count, |s.queue|
  {
    if s.queue != [] && Below(s.count, max) {
      StepInv(env, origin, out, base, files0, s);
      CrawledInv(env, origin, out, max, base, files0, Step(env, origin, out, s));
    }
  }

  /** The count never passes `max` by more than the page that reached it: every page was
      saved while the count was below `max`. */
  predicate WithinMax(count: nat, max: JsNumber) {
    count == 0 || Below(count - 1, max)
  }

  lemma {:induction false} CrawledWithinMax(env: Env, origin: String, out: Path, max: JsNumber, s: Crawl)
    requires WithinMax(s.count, max)
    ensures WithinMax(Crawled(env, origin, out, max, s).count, max)
    decreases Cap(max) - s.count, |s.queue|
  {
    if s.queue != [] && Below(s.count, max) {
      CrawledWithinMax(env, origin, out, max, Step(env, origin, out, s));
    }
  }

  /** A whole-number `max` is a hard cap on the saved pages, and a `max` that is not a
      positive number saves nothing. */
  lemma WithinWholeMax(count: nat, max: JsNumber)
    requires WithinMax(count, max)
    ensures max.Finite? && max.value == max.value.Floor as real && max.value >= 0.0 ==> count <= max.value.Floor
    ensures max.NaN? || max.value <= 0.0 ==> count == 0
  {
    if count > 0 && max.Finite? && max.value == max.value.Floor as real {
      var n := max.value.Floor;
      assert ((count - 1) as real) < n as real;
      assert count - 1 < n;
    }
  }

  /** What the crawl from the base URL ends with: no URL was fetched twice, only the base
      and internal pages were visited, the count is at most `max` (for a whole `max`) and is
      the number of visited pages that were saved, and each written file belongs to one of
      them. */
  lemma CrawlResult(env: Env, base: String, out: Path, max: JsNumber, files0: map<Path, String>)
    requires env.parse(base).Some?
    ensures var origin := env.parse(base).value.origin;
            var r := Crawled(env, origin, out, max, Start(base, files0));
            && Seqs.Distinct(r.visited)
            && (forall i :: 0 <= i < |r.visited| ==> Crawlable(env, origin, base, r.visited[i]))
            && r.count == Saves(env, origin, out, r.visited)
            && (max.Finite? && max.value == max.value.Floor as real && max.value >= 0.0 ==> r.count <= max.value.Floor)
            && (forall p :: p in r.files ==> p in files0 || SavedTo(env, origin, out, r.visited, p))
            && (r.queue == [] || !Below(r.count, max))
  {
    var origin := env.parse(base).value.origin;
    StartInv(env, origin, out, base, files0);
    CrawledInv(env, origin, out, max, base, files0, Start(base, files0));
    CrawledWithinMax(env, origin, out, max, Start(base, files0));
    WithinWholeMax(Crawled(env, origin, out, max, Start(base, files0)).count, max);
    AllCrawlableMeans(env, origin, base, Crawled(env, origin, out, max, Start(base, files0)).visited);
  }

  /** A URL whose fetch fails is still visited, but adds no page, no file and no link. */
  lemma FailedFetchSkipped(env: Env, origin: String, out: Path, s: Crawl)
    requires s.queue != [] && s.queue[0] != [] && s.queue[0] !in s.visited
    requires env.fetch(s.queue[0]).None?
    ensures Step(env, origin, out, s) == Crawl(s.queue[1..], s.visited + [s.queue[0]], s.count, s.files)
  {
  }

  /** A URL already visited is dropped without a fetch. */
  lemma VisitedSkipped(env: Env, origin: String, out: Path, s: Crawl)
    requires s.queue != [] && s.queue[0] in s.visited
    ensures Step(env, origin, out, s) == s.(queue := s.queue[1..])
  {
  }
}
