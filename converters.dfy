/** What `scrape-converter.py` and `wordpress-converter.py` do alike: the site URL they are
    given, the naming rule of a downloaded image, the rule that turns links to the WordPress
    site into site-relative links, and the `src/pages` file a page is written to. The
    functions the scripts import (`json.dumps`, `slugify`, `urlparse`, `urljoin`,
    BeautifulSoup) and the outcome of a download are supplied by the caller. */
module Converters {
  import opened Text
  import opened Json
  import opened Html

  /** The library functions and the outside world as the converters see them. */
  datatype Oracles = Oracles(
    dumps: Value -> String,                // json.dumps
    repr: Value -> String,                 // str() of a value that is not a string
    slugify: String -> String,
    urlPath: String -> String,             // urlparse(url).path
    stored: (String, String) -> bool,      // GET url answered 200 and public/images/<name> was written
    urljoin: (String, String) -> String,
    parse: String -> Doc,                  // BeautifulSoup(html, 'html.parser')
    render: Doc -> String,                 // str(soup)
    getText: String -> String)             // BeautifulSoup(html).get_text()

  /** A post or page record of the REST API. */
  type Record = map<String, Value>

  /** `if slug:` on `record.get('slug', '')`. */
  predicate HasSlug(r: Record) {
    PyTruthy(Get(r, "slug", Str("")))
  }

  /** `wp_url.rstrip('/')`. */
  function SiteUrl(raw: String): (r: String)
    ensures r == [] || r[|r| - 1] != '/'
    ensures StartsWith(raw, r)
  {
    RStripChar(raw, '/')
  }

  /** Trailing slashes on the command line make no difference. */
  lemma SiteUrlTrailingSlash(raw: String)
    ensures SiteUrl(raw + "/") == SiteUrl(raw)
  {
    assert (raw + "/")[..|raw|] == raw;
  }

  /** Index of the last `c` in `s`, or -1. */
  function LastIndex(s: String, c: char): (i: int)
    ensures -1 <= i < |s|
    ensures i >= 0 ==> s[i] == c
    ensures forall k :: i < k < |s| ==> s[k] != c
  {
    if s == [] then -1
    else if s[|s| - 1] == c then |s| - 1
    else LastIndex(s[..|s| - 1], c)
  }

  /** `os.path.splitext` of a base name: the extension runs from the last dot, unless
      everything before that dot is dots (`.bashrc` has no extension). */
  function SplitExt(p: String): (r: (String, String))
    ensures r.0 + r.1 == p
    ensures r.1 != [] ==> r.1[0] == '.' && '.' !in r.1[1..]
    ensures r.1 != [] ==> exists k :: 0 <= k < |r.0| && r.0[k] != '.'
    ensures r.1 == [] ==> forall k, j :: 0 <= j < k < |p| && p[k] == '.' ==> p[j] == '.'
  {
    var d := LastIndex(p, '.');
    if d > 0 && exists k :: 0 <= k < d && p[k] != '.' then
      assert forall k :: d < k < |p| ==> p[d..][k - d] == p[k];
      (p[..d], p[d..])
    else
      (p, [])
  }

  /** The name `download_image` saves under: the given one, or the slugified stem of the URL's
      file name with its extension, `.jpg` when it has none. */
  function ImageName(url: String, filename: String, env: Oracles): String {
    if filename != [] then filename
    else
      var (stem, ext) := SplitExt(LastPiece(env.urlPath(url), '/'));
      env.slugify(stem) + (if ext == [] then ".jpg" else ext)
  }

  /** `download_image(url, filename)`: the site path of the saved copy, or the URL itself when
      the request or the write fails. */
  function DownloadImage(url: String, filename: String, env: Oracles): (r: String)
    ensures r == url || r == "/images/" + ImageName(url, filename, env)
    ensures r != url ==> env.stored(url, ImageName(url, filename, env))
  {
    var name := ImageName(url, filename, env);
    if env.stored(url, name) then "/images/" + name else url
  }

  /** A saved image keeps the extension of the URL's file name, or gets `.jpg`. */
  lemma ImageNameExtension(url: String, env: Oracles)
    ensures var ext := SplitExt(LastPiece(env.urlPath(url), '/')).1;
            var name := ImageName(url, [], env);
            (ext == [] ==> EndsWith(name, ".jpg")) && (ext != [] ==> EndsWith(name, ext))
  {
    var (stem, ext) := SplitExt(LastPiece(env.urlPath(url), '/'));
    var tail := if ext == [] then ".jpg" else ext;
    assert (env.slugify(stem) + tail)[|env.slugify(stem)|..] == tail;
  }

  /** `f"wp_{slugify(src.split('/')[-1])}"`, the name both converters ask for. */
  function WpImageName(src: String, env: Oracles): (r: String)
    ensures StartsWith(r, "wp_")
  {
    "wp_" + env.slugify(LastPiece(src, '/'))
  }

  /** An image either keeps its URL or points into `/images/`, under a `wp_` name. */
  lemma DownloadedImagePath(src: String, env: Oracles)
    ensures var r := DownloadImage(src, WpImageName(src, env), env);
            r == src || StartsWith(r, "/images/wp_")
  {
    var n := WpImageName(src, env);
    assert ImageName(src, n, env) == n;
    assert ("/images/" + n)[..11] == "/images/" + n[..3];
  }

  /** The `src` of an image set to the result of downloading `url`. */
  function WithDownloadedSrc(e: Element, url: String, env: Oracles): (r: Element)
    ensures r.tag == e.tag && Attr(r, "src") == DownloadImage(url, WpImageName(url, env), env)
    ensures forall n :: n != "src" ==> Attr(r, n) == Attr(e, n)
  {
    SetAttr(e, "src", DownloadImage(url, WpImageName(url, env), env))
  }

  /** The link loop: an `a` whose non-empty `href` contains the site URL loses every
      occurrence of it; `href.replace(wp_url, '')`. */
  function LinkRule(site: String, e: Element): Element {
    var href := Attr(e, "href");
    if e.tag == "a" && href != [] && Contains(href, site)
    then SetAttr(e, "href", ReplaceAll(href, site, []))
    else e
  }

  function LinkStep(site: String): Element -> Element {
    e => LinkRule(site, e)
  }

  /** Elements other than links, and links that do not mention the site, are untouched. */
  lemma LinkRuleKeeps(site: String, e: Element)
    requires e.tag != "a" || !Contains(Attr(e, "href"), site)
    ensures LinkRule(site, e) == e
  {
  }

  /** A link to the site loses each occurrence of the site URL: its `href` is shorter by as
      many copies as it held, at least one, and no other attribute changes. */
  lemma LinkRuleRemoves(site: String, e: Element)
    requires site != [] && e.tag == "a" && Contains(Attr(e, "href"), site)
    ensures var href := Attr(e, "href");
            var r := LinkRule(site, e);
            && CountOcc(href, site) >= 1
            && |Attr(r, "href")| == |href| - |site| * CountOcc(href, site)
            && r.tag == e.tag
            && forall n :: n != "href" ==> Attr(r, n) == Attr(e, n)
  {
    var href := Attr(e, "href");
    CountOccPositive(href, site);
    RemoveAllLength(href, site);
  }

  /** One removal pass can put the site URL together again from the pieces around it. */
  lemma LinkRuleMayLeaveSite()
    ensures var e := Element("a", map["href" := "aabb"]);
            Contains(Attr(LinkRule("ab", e), "href"), "ab")
  {
    var e := Element("a", map["href" := "aabb"]);
    assert Attr(e, "href") == "aabb";
    assert OccursAt("aabb", "ab", 1);
    assert ReplaceAll("b", "ab", []) == "b";
    assert ReplaceAll("bb", "ab", []) == "bb" by {
      assert "bb"[..2][0] != "ab"[0];
    }
    assert ReplaceAll("abb", "ab", []) == "b" by {
      assert "abb"[..2] == "ab";
      assert "abb"[2..] == "b";
    }
    assert ReplaceAll("aabb", "ab", []) == "ab" by {
      assert "aabb"[..2] != "ab";
      assert "aabb"[1..] == "abb";
    }
    assert Attr(LinkRule("ab", e), "href") == "ab";
    assert OccursAt("ab", "ab", 0);
  }

  /** `os.path.join(a, b)`. */
  function PyJoin(a: String, b: String): String {
    if StartsWith(b, "/") then b
    else if a == [] || a[|a| - 1] == '/' then a + b
    else a + "/" + b
  }

  const PagesDir: String := "src/pages"

  /** The Astro page of a slug: `index.astro` for the home page, `<slug>.astro` otherwise, in
      `src/pages`. */
  function AstroPagePath(home: bool, slug: String): String {
    if home then PyJoin(PagesDir, "index.astro") else PyJoin(PagesDir, slug + ".astro")
  }

  function Stem(slug: String): String {
    if slug == "home" then "index" else slug
  }

  lemma AstroPagePathStem(slug: String)
    requires !StartsWith(slug, "/")
    ensures AstroPagePath(slug == "home", slug) == PagesDir + "/" + Stem(slug) + ".astro"
  {
    assert PagesDir[|PagesDir| - 1] == 's';
    if slug == "home" {
      assert "index.astro"[..1] == "i";
    } else if slug == [] {
      assert slug + ".astro" == ".astro";
      assert ".astro"[..1] == ".";
    } else {
      assert (slug + ".astro")[..1] == slug[..1];
    }
  }

  /** Two slugs get the same page exactly when they are equal or are `home` and `index`. */
  lemma AstroPathsCollide(a: String, b: String)
    requires !StartsWith(a, "/") && !StartsWith(b, "/")
    ensures AstroPagePath(a == "home", a) == AstroPagePath(b == "home", b) <==>
            a == b || (a == "home" && b == "index") || (a == "index" && b == "home")
  {
    AstroPagePathStem(a);
    AstroPagePathStem(b);
    var pa := PagesDir + "/" + Stem(a) + ".astro";
    var pb := PagesDir + "/" + Stem(b) + ".astro";
    if pa == pb {
      assert pa[10..|pa| - 6] == Stem(a);
      assert pb[10..|pb| - 6] == Stem(b);
    }
  }
}
