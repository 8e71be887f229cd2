/** `src/scripts/generate-astro-from-scrape.js`: turns each mirrored `index.html` below the
    input directory into an Astro page below the output directory, with the page's assets
    and same-site links made local and the layout imported by a relative path. Directory
    listing, reading and writing files, cheerio, `new URL` and `JSON.stringify` are supplied by
    the caller. */
module GenerateAstro {
  import opened Text
  import opened Options
  import opened Html
  import Paths
  import Seqs
  import RebuildPages

  type Path = Paths.Path

  /** The libraries and the outside world as the script sees them. */
  datatype Env = Env(
    resolve: (String, String) -> Option<Url>,  // new URL(s, base); None when it throws
    parse: String -> Option<Url>,              // new URL(s)
    load: String -> Doc,                       // the elements of cheerio.load(html)
    loadRaw: String -> Doc,                    // cheerio.load(html, {decodeEntities: false})
    render: Doc -> String,                     // $.root().html()
    mainHtml: String -> Option<String>,        // $('main').html() of a page; None for null
    bodyHtml: String -> Option<String>,        // $('body').html()
    titleText: String -> String,               // $('title').first().text()
    stringify: String -> String,               // JSON.stringify of a string
    stringifyList: seq<String> -> String)      // JSON.stringify of an array of strings

  // ---------------------------------------------------------------- command line

  datatype Args = Args(inDir: String, outDir: String, overwrite: bool)

  const Defaults: Args := Args("src/pages/site", "src/pages", true)

  predicate IsInFlag(a: String) {
    a == "--in" || a == "-i"
  }

  predicate IsOutFlag(a: String) {
    a == "--out" || a == "-o"
  }

  /** The options after scanning `argv` from index `i` on, starting from `acc`: a directory
      flag takes the next argument when there is one and the scan resumes after it. */
  function ScanArgs(argv: seq<String>, i: nat, acc: Args): Args
    decreases |argv| - i
  {
    if i >= |argv| then acc
    else if IsInFlag(argv[i]) then
      ScanArgs(argv, i + 2, acc.(inDir := if i + 1 < |argv| then argv[i + 1] else acc.inDir))
    else if IsOutFlag(argv[i]) then
      ScanArgs(argv, i + 2, acc.(outDir := if i + 1 < |argv| then argv[i + 1] else acc.outDir))
    else if argv[i] == "--no-overwrite" then ScanArgs(argv, i + 1, acc.(overwrite := false))
    else ScanArgs(argv, i + 1, acc)
  }

  /** `parseArgs(argv)`: the first two entries are the runtime and the script. */
  method ParseArgs(argv: seq<String>) returns (args: Args)
    ensures args == ScanArgs(argv, 2, Defaults)
  {
    args := Defaults;
    var i := 2;
    while i < |argv|
      invariant 2 <= i
      invariant ScanArgs(argv, i, args) == ScanArgs(argv, 2, Defaults)
      decreases |argv| - i
    {
      var a := argv[i];
      if IsInFlag(a) {
        i := i + 1;
        args := args.(inDir := if i < |argv| then argv[i] else args.inDir);
      } else if IsOutFlag(a) {
        i := i + 1;
        args := args.(outDir := if i < |argv| then argv[i] else args.outDir);
      } else if a == "--no-overwrite" {
        args := args.(overwrite := false);
      }
      i := i + 1;
    }
  }

  /** Some argument from index `i` on is `x`. */
  predicate Mentions(argv: seq<String>, i: nat, x: String) {
    exists j :: i <= j < |argv| && argv[j] == x
  }

  /** The argument at `j` follows a flag that `isFlag` accepts. */
  predicate ValueAt(argv: seq<String>, i: nat, j: int, inFlag: bool) {
    i < j < |argv| && (if inFlag then IsInFlag(argv[j - 1]) else IsOutFlag(argv[j - 1]))
  }

  /** Without directory flags, overwriting is off exactly when `--no-overwrite` is given. */
  lemma {:induction false} ScanPlainFlags(argv: seq<String>, i: nat, acc: Args)
    requires forall j :: i <= j < |argv| ==> !IsInFlag(argv[j]) && !IsOutFlag(argv[j])
    ensures ScanArgs(argv, i, acc) ==
            acc.(overwrite := acc.overwrite && !Mentions(argv, i, "--no-overwrite"))
    decreases |argv| - i
  {
    if i < |argv| {
      ScanPlainFlags(argv, i + 1, if argv[i] == "--no-overwrite" then acc.(overwrite := false) else acc);
      assert Mentions(argv, i, "--no-overwrite") <==>
             argv[i] == "--no-overwrite" || Mentions(argv, i + 1, "--no-overwrite");
    }
  }

  /** Overwriting is only ever turned off, and only by a `--no-overwrite` argument; each
      directory is the one it started as or an argument that follows its flag. */
  lemma {:induction false} ScanArgsOrigin(argv: seq<String>, i: nat, acc: Args)
    ensures var r := ScanArgs(argv, i, acc);
            && (r.overwrite ==> acc.overwrite)
            && (!r.overwrite ==> !acc.overwrite || Mentions(argv, i, "--no-overwrite"))
            && (r.inDir == acc.inDir || exists j :: ValueAt(argv, i, j, true) && argv[j] == r.inDir)
            && (r.outDir == acc.outDir || exists j :: ValueAt(argv, i, j, false) && argv[j] == r.outDir)
    decreases |argv| - i
  {
    if i < |argv| {
      var a := argv[i];
      var next := if IsInFlag(a) || IsOutFlag(a) then i + 2 else i + 1;
      var acc' :=
        if IsInFlag(a) then acc.(inDir := if i + 1 < |argv| then argv[i + 1] else acc.inDir)
        else if IsOutFlag(a) then acc.(outDir := if i + 1 < |argv| then argv[i + 1] else acc.outDir)
        else if a == "--no-overwrite" then acc.(overwrite := false)
        else acc;
      assert ScanArgs(argv, i, acc) == ScanArgs(argv, next, acc');
      ScanArgsOrigin(argv, next, acc');
      var r := ScanArgs(argv, i, acc);
      if !r.overwrite && acc'.overwrite {
        var j :| next <= j < |argv| && argv[j] == "--no-overwrite";
        assert i <= j;
      }
      if r.inDir != acc'.inDir {
        var j :| ValueAt(argv, next, j, true) && argv[j] == r.inDir;
        assert ValueAt(argv, i, j, true);
      }
      if r.outDir != acc'.outDir {
        var j :| ValueAt(argv, next, j, false) && argv[j] == r.outDir;
        assert ValueAt(argv, i, j, false);
      }
      if IsInFlag(a) && i + 1 < |argv| {
        assert ValueAt(argv, i, i + 1, true);
      }
      if IsOutFlag(a) && i + 1 < |argv| {
        assert ValueAt(argv, i, i + 1, false);
      }
    }
  }

  /** A directory flag at the very end keeps the directory as it was. */
  lemma TrailingFlagKeeps(argv: seq<String>, acc: Args)
    requires |argv| >= 3
    requires IsInFlag(argv[|argv| - 1]) || IsOutFlag(argv[|argv| - 1])
    ensures ScanArgs(argv, |argv| - 1, acc) == acc
  {
  }

  // ---------------------------------------------------------------- output path

  /** `toAstroPath(inDir, htmlFile, outDir)`, on absolute paths: the file's directory relative
      to `inDir`, joined to `outDir`, then `index.astro`. */
  function ToAstroPath(inDir: Path, htmlFile: Path, outDir: Path): Path {
    var rel := Paths.RelativeStr(inDir, Paths.Dirname(htmlFile));
    Paths.JoinPath(outDir, rel) + ["index.astro"]
  }

  /** The `index.html` of a directory below the input directory becomes `index.astro` in the
      same directory below the output directory. */
  lemma ToAstroPathMirrors(inDir: Path, sub: Path, outDir: Path)
    requires Paths.Normal(outDir) && Paths.Normal(sub)
    ensures ToAstroPath(inDir, inDir + sub + ["index.html"], outDir) == outDir + sub + ["index.astro"]
  {
    var file := inDir + sub + ["index.html"];
    assert Paths.Dirname(file) == inDir + sub;
    Paths.RelativeBelow(inDir, sub);
    assert Paths.NoSlash(sub);
    Paths.JoinJoined(outDir, sub);
    Paths.ResolveNames(outDir, sub);
  }

  /** Different directories below the input directory never share a destination. */
  lemma ToAstroPathInjective(inDir: Path, a: Path, b: Path, outDir: Path)
    requires Paths.Normal(outDir) && Paths.Normal(a) && Paths.Normal(b)
    requires ToAstroPath(inDir, inDir + a + ["index.html"], outDir) ==
             ToAstroPath(inDir, inDir + b + ["index.html"], outDir)
    ensures a == b
  {
    ToAstroPathMirrors(inDir, a, outDir);
    ToAstroPathMirrors(inDir, b, outDir);
    var pa := outDir + a + ["index.astro"];
    var pb := outDir + b + ["index.astro"];
    assert pa[|outDir|..|pa| - 1] == a;
    assert pb[|outDir|..|pb| - 1] == b;
  }

  /** When the output directory is the input directory, each page sits next to its file. */
  lemma ToAstroPathInPlace(dir: Path, file: Path)
    requires Paths.Normal(dir) && Paths.Normal(file)
    ensures ToAstroPath(dir, file, dir) == Paths.Dirname(file) + ["index.astro"]
  {
    Paths.JoinRelative(dir, Paths.Dirname(file));
  }

  // ---------------------------------------------------------------- main content

  /** `extractMainHtml(html)`, given the inner HTML of `main` and of `body`. */
  function ExtractMainHtml(main: Option<String>, body: Option<String>): (r: String)
    ensures r == [] || (!IsWs(r[0]) && !IsWs(r[|r| - 1]))
    ensures main.Some? && main.value != [] ==> NonWs(r) == NonWs(main.value)
    ensures (main.None? || main.value == []) && body.Some? ==> NonWs(r) == NonWs(body.value)
    ensures (main.None? || main.value == []) && body.None? ==> r == []
  {
    var content := if main.Some? && main.value != [] then main.value else body.GetOr([]);
    NonWsStrip(content);
    Strip(content)
  }

  // ---------------------------------------------------------------- links and assets

  /** The paths `/^\/(wp-|wpcontent|wp-content|wp-admin|wp-json)/i` matches. */
  predicate WpPath(p: String) {
    || StartsWithCi(p, "/wp-") || StartsWithCi(p, "/wpcontent") || StartsWithCi(p, "/wp-content")
    || StartsWithCi(p, "/wp-admin") || StartsWithCi(p, "/wp-json")
  }

  lemma StartsWithCiPrefix(p: String, a: String, b: String)
    requires StartsWithCi(p, b) && |a| <= |b| && b[..|a|] == a
    ensures StartsWithCi(p, a)
  {
    assert LowerAll(p[..|a|]) == LowerAll(p[..|b|])[..|a|];
  }

  /** The last three alternatives of the pattern add nothing to the first. */
  lemma WpPathShort(p: String)
    ensures WpPath(p) <==> StartsWithCi(p, "/wp-") || StartsWithCi(p, "/wpcontent")
  {
    if StartsWithCi(p, "/wp-content") { StartsWithCiPrefix(p, "/wp-", "/wp-content"); }
    if StartsWithCi(p, "/wp-admin") { StartsWithCiPrefix(p, "/wp-", "/wp-admin"); }
    if StartsWithCi(p, "/wp-json") { StartsWithCiPrefix(p, "/wp-", "/wp-json"); }
  }

  /** `p.endsWith('/') ? p : p + '/'`. */
  function TrailingSlash(p: String): (r: String)
    ensures EndsWith(r, "/")
    ensures StartsWith(r, p) && |r| <= |p| + 1
  {
    if EndsWith(p, "/") then p else p + "/"
  }

  /** Adding the slash once is enough. */
  lemma TrailingSlashIdempotent(p: String)
    ensures TrailingSlash(TrailingSlash(p)) == TrailingSlash(p)
  {
  }

  /** The new `href` of a link under `rewriteInternalAnchors`, or `None` when it keeps its own:
      for a cross-origin link, a link the URL class rejects and a WordPress path. */
  function AnchorHref(href: String, origin: String, env: Env): Option<String> {
    var u := env.resolve(href, origin);
    var base := env.parse(origin);
    if u.None? || base.None? || u.value.origin != base.value.origin then None
    else
      var p := if u.value.pathname == [] then "/" else u.value.pathname;
      if WpPath(p) then None else Some(TrailingSlash(p) + u.value.search + u.value.hash)
  }

  /** The rule `rewriteInternalAnchors` applies to each `a[href]`. */
  function AnchorRule(origin: String, env: Env, e: Element): Element {
    if e.tag == "a" && HasValue(e, "href") && AnchorHref(Attr(e, "href"), origin, env).Some?
    then SetAttr(e, "href", AnchorHref(Attr(e, "href"), origin, env).value)
    else e
  }

  function AnchorStep(origin: String, env: Env): Element -> Element {
    e => AnchorRule(origin, env, e)
  }

  /** A same-site link outside WordPress's own paths ends its path with a slash and keeps its
      query and fragment; every other element, and every other attribute, is left alone. */
  lemma AnchorRuleEffect(origin: String, env: Env, e: Element)
    ensures var r := AnchorRule(origin, env, e);
            && r.tag == e.tag
            && (forall n :: n != "href" ==> Attr(r, n) == Attr(e, n))
            && (r != e ==>
                  var u := env.resolve(Attr(e, "href"), origin).value;
                  var p := if u.pathname == [] then "/" else u.pathname;
                  && e.tag == "a"
                  && env.parse(origin).Some? && u.origin == env.parse(origin).value.origin
                  && !WpPath(p)
                  && Attr(r, "href") == TrailingSlash(p) + u.search + u.hash)
  {
  }

  /** Links to other sites and to WordPress paths are never touched. */
  lemma AnchorRuleKeeps(origin: String, env: Env, e: Element)
    requires var u := env.resolve(Attr(e, "href"), origin);
             var base := env.parse(origin);
             || u.None? || base.None? || u.value.origin != base.value.origin
             || WpPath(if u.value.pathname == [] then "/" else u.value.pathname)
    ensures AnchorRule(origin, env, e) == e
  {
  }

  /** The page `rewriteInternalAnchors` returns. */
  function AnchorsRewritten(html: String, origin: String, env: Env): String {
    var r := env.render(Seqs.Map(AnchorStep(origin, env), env.loadRaw(html)));
    if r != [] then r else html
  }

  /** `rewriteInternalAnchors(html, origin)`: the parsed page is updated in place, link by
      link, and rendered; an empty rendering gives back the input. */
  method RewriteInternalAnchors(html: String, origin: String, env: Env) returns (out: String)
    ensures out == AnchorsRewritten(html, origin, env)
  {
    var elements := env.loadRaw(html);
    var doc := new Element[|elements|](i requires 0 <= i < |elements| => elements[i]);
    assert doc[..] == elements;
    MapInPlace(doc, AnchorStep(origin, env));
    var rendered := env.render(doc[..]);
    out := if rendered != [] then rendered else html;
  }

  /** `toLocal(urlStr)`: a same-origin URL becomes its path and query, dropping the fragment;
      anything else is kept. */
  function ToLocal(urlStr: String, origin: String, env: Env): (r: String)
    ensures var u := env.resolve(urlStr, origin);
            var base := env.parse(origin);
            r == urlStr || (u.Some? && base.Some? && u.value.origin == base.value.origin &&
                           r == u.value.pathname + u.value.search)
    ensures env.resolve(urlStr, origin).None? || env.parse(origin).None? ==> r == urlStr
  {
    var u := env.resolve(urlStr, origin);
    var base := env.parse(origin);
    if u.None? || base.None? || u.value.origin != base.value.origin then urlStr
    else u.value.pathname + u.value.search
  }

  /** The attribute `name` of `e` made local. */
  function Localized(e: Element, name: String, origin: String, env: Env): Element {
    SetAttr(e, name, ToLocal(Attr(e, name), origin, env))
  }

  /** `img[src]`. */
  function ImgRule(origin: String, env: Env, e: Element): Element {
    if e.tag == "img" && HasValue(e, "src") then Localized(e, "src", origin, env) else e
  }

  /** `link[rel="stylesheet"]`, by its `href`. */
  function StylesheetRule(origin: String, env: Env, e: Element): Element {
    if e.tag == "link" && Attr(e, "rel") == "stylesheet" && HasValue(e, "href")
    then Localized(e, "href", origin, env)
    else e
  }

  /** `script[src]`. */
  function ScriptRule(origin: String, env: Env, e: Element): Element {
    if e.tag == "script" && HasValue(e, "src") then Localized(e, "src", origin, env) else e
  }

  function ImgStep(origin: String, env: Env): Element -> Element {
    e => ImgRule(origin, env, e)
  }

  function StylesheetStep(origin: String, env: Env): Element -> Element {
    e => StylesheetRule(origin, env, e)
  }

  function ScriptStep(origin: String, env: Env): Element -> Element {
    e => ScriptRule(origin, env, e)
  }

  /** The three passes of `rewriteAssetsToLocal` select different elements: together they
      make local the `src` of an image or script and the `href` of a stylesheet link, and
      touch nothing else. */
  lemma AssetPassesDisjoint(origin: String, env: Env, e: Element)
    ensures ScriptRule(origin, env, StylesheetRule(origin, env, ImgRule(origin, env, e))) ==
            if e.tag == "img" then ImgRule(origin, env, e)
            else if e.tag == "link" then StylesheetRule(origin, env, e)
            else if e.tag == "script" then ScriptRule(origin, env, e)
            else e
  {
  }

  /** The page `rewriteAssetsToLocal` returns. */
  function AssetsRewritten(html: String, origin: String, env: Env): String {
    var doc := Seqs.Map(ScriptStep(origin, env),
                 Seqs.Map(StylesheetStep(origin, env),
                   Seqs.Map(ImgStep(origin, env), env.loadRaw(html))));
    var r := env.render(doc);
    if r != [] then r else html
  }

  /** `rewriteAssetsToLocal(html, origin)`: images, then stylesheet links, then scripts are
      updated in place and the page is rendered; an empty rendering gives back the input. */
  method RewriteAssetsToLocal(html: String, origin: String, env: Env) returns (out: String)
    ensures out == AssetsRewritten(html, origin, env)
  {
    var elements := env.loadRaw(html);
    var doc := new Element[|elements|](i requires 0 <= i < |elements| => elements[i]);
    assert doc[..] == elements;
    MapInPlace(doc, ImgStep(origin, env));
    MapInPlace(doc, StylesheetStep(origin, env));
    MapInPlace(doc, ScriptStep(origin, env));
    var rendered := env.render(doc[..]);
    out := if rendered != [] then rendered else html;
  }

  // ---------------------------------------------------------------- text helpers

  function IndentLine(pad: String, line: String): String {
    if |Strip(line)| > 0 then pad + line else []
  }

  function IndentStep(pad: String): String -> String {
    line => IndentLine(pad, line)
  }

  /** `indentHtml(html, spaces)`. */
  function IndentHtml(html: String, spaces: nat): String {
    Join(Seqs.Map(IndentStep(Repeat(' ', spaces)), Split(html, '\n')), '\n')
  }

  /** Indenting keeps the lines: each line with something on it gets exactly `spaces` more
      leading spaces, and a blank line becomes empty. */
  lemma IndentHtmlLines(html: String, spaces: nat)
    ensures var ls := Split(html, '\n');
            var rs := Split(IndentHtml(html, spaces), '\n');
            && |rs| == |ls|
            && forall i :: 0 <= i < |ls| ==>
                 rs[i] == if AllWs(ls[i]) then [] else Repeat(' ', spaces) + ls[i]
  {
    var pad := Repeat(' ', spaces);
    var ls := Split(html, '\n');
    var ms := Seqs.Map(IndentStep(pad), ls);
    forall i | 0 <= i < |ms| ensures '\n' !in ms[i] {
      assert '\n' !in pad;
      assert ms[i] == IndentLine(pad, ls[i]);
    }
    SplitJoin(ms, '\n');
    forall i | 0 <= i < |ls|
      ensures ms[i] == if AllWs(ls[i]) then [] else pad + ls[i]
    {
      StripEmpty(ls[i]);
    }
  }

  /** `sanitizeTitle(str)`; `None` is `null` or `undefined`. */
  function SanitizeTitle(str: Option<String>): String {
    var s := if str.Some? then str.value else [];
    Strip(ReplaceAll(Collapse(s), "\"", "\""))
  }

  /** The quote replacement changes nothing: a title is trimmed and collapsed, its double
      quotes kept, and so it is `clean_title` of the rebuild script whenever that has no
      ` description:` to drop. */
  lemma SanitizeTitleIsCollapse(s: String)
    ensures SanitizeTitle(Some(s)) == Collapse(Strip(s))
    ensures !EndsWith(Collapse(Strip(s)), " description:") ==>
              SanitizeTitle(Some(s)) == RebuildPages.CleanTitle(s)
  {
    ReplaceSelf(Collapse(s), '"');
    StripCollapse(s);
    RebuildPages.CleanTitleSuffix(s);
  }

  /** A sanitized title is tidy and has every non-whitespace character of the input, in
      order; `null` gives the empty title. */
  lemma SanitizeTitleTidy(str: Option<String>)
    ensures RebuildPages.Tidy(SanitizeTitle(str))
    ensures str.Some? ==> NonWs(SanitizeTitle(str)) == NonWs(str.value)
    ensures str.None? ==> SanitizeTitle(str) == []
  {
    var s := if str.Some? then str.value else [];
    SanitizeTitleIsCollapse(s);
    RebuildPages.StripCollapseTidy(s);
    NonWsStrip(s);
    CollapseKeepsNonWs(Strip(s));
  }

  // ---------------------------------------------------------------- layout import

  const LayoutFile: Path := ["src", "layouts", "Layout.astro"]

  /** The import path `wrapInLayoutDynamic` writes into a page at `fromFile`, with POSIX
      separators: the layout relative to the page's directory, `./` in front unless it starts
      with a dot. */
  function LayoutImport(fromFile: Path, cwd: Path): (r: String)
    ensures StartsWith(r, ".")
  {
    var rel := Join(Split(Paths.RelativeStr(Paths.Dirname(fromFile), cwd + LayoutFile), '/'), '/');
    if StartsWith(rel, ".") then rel else "./" + rel
  }

  lemma LayoutFileNormal(cwd: Path)
    requires Paths.Normal(cwd)
    ensures Paths.Normal(cwd + LayoutFile)
  {
    assert Paths.IsName("src") && Paths.IsName("layouts") && Paths.IsName("Layout.astro");
  }

  /** Resolved against the page's directory, the import names the layout file. */
  lemma LayoutImportResolves(fromFile: Path, cwd: Path)
    requires Paths.Normal(fromFile) && Paths.Normal(cwd)
    ensures Paths.JoinPath(Paths.Dirname(fromFile), LayoutImport(fromFile, cwd)) == cwd + LayoutFile
  {
    var dir := Paths.Dirname(fromFile);
    var target := cwd + LayoutFile;
    var rel := Paths.RelativeStr(dir, target);
    JoinSplit(rel, '/');
    LayoutFileNormal(cwd);
    Paths.JoinRelative(dir, target);
    if !StartsWith(rel, ".") {
      calc {
        Paths.JoinPath(dir, "./" + rel);
        { assert "./" + rel == "." + ['/'] + rel; SplitCons(".", '/', rel); }
        Paths.Resolve(dir, ["."] + Split(rel, '/'));
        { assert (["."] + Split(rel, '/'))[1..] == Split(rel, '/'); }
        Paths.Resolve(dir, Split(rel, '/'));
      }
    }
  }

  lemma CommonPrefixPages(cwd: Path, sub: Path)
    ensures Paths.CommonPrefix(cwd + ["src", "pages"] + sub, cwd + LayoutFile) == |cwd| + 1
  {
    assert cwd + ["src", "pages"] + sub == cwd + (["src"] + (["pages"] + sub));
    assert cwd + LayoutFile == cwd + (["src"] + ["layouts", "Layout.astro"]);
    Paths.CommonPrefixAppend(cwd, ["src"] + (["pages"] + sub), ["src"] + ["layouts", "Layout.astro"]);
    Paths.CommonPrefixAppend(["src"], ["pages"] + sub, ["layouts", "Layout.astro"]);
    assert Paths.CommonPrefix(["pages"] + sub, ["layouts", "Layout.astro"]) == 0;
  }

  lemma LayoutTail(cwd: Path)
    ensures (cwd + LayoutFile)[|cwd| + 1..] == ["layouts", "Layout.astro"]
  {
    assert (cwd + LayoutFile)[|cwd| + 1..] == LayoutFile[1..];
  }

  lemma RelativePages(cwd: Path, sub: Path)
    ensures Paths.Relative(cwd + ["src", "pages"] + sub, cwd + LayoutFile) ==
            Paths.Ups(|sub| + 1) + ["layouts", "Layout.astro"]
  {
    var dir := cwd + ["src", "pages"] + sub;
    var target := cwd + LayoutFile;
    CommonPrefixPages(cwd, sub);
    var k := Paths.CommonPrefix(dir, target);
    assert k == |cwd| + 1;
    assert Paths.Relative(dir, target) == Paths.Ups(|dir| - k) + target[k..];
    LayoutTail(cwd);
    assert |dir| - (|cwd| + 1) == |sub| + 1;
  }

  /** A relative path that already starts with a dot is imported as it is. */
  lemma LayoutImportDotted(fromFile: Path, cwd: Path, rel: String)
    requires Paths.RelativeStr(Paths.Dirname(fromFile), cwd + LayoutFile) == rel
    requires StartsWith(rel, ".")
    ensures LayoutImport(fromFile, cwd) == rel
  {
    JoinSplit(rel, '/');
  }

  lemma UpsJoinDotted(parts: seq<String>)
    requires |parts| > 1 && parts[0] == ".."
    ensures StartsWith(Join(parts, '/'), ".")
  {
    assert Join(parts, '/') == parts[0] + ['/'] + Join(parts[1..], '/');
  }

  /** For a page `sub` levels below `src/pages`, the import climbs out of them and of
      `pages`. */
  lemma LayoutImportUnderPages(cwd: Path, sub: Path)
    ensures LayoutImport(cwd + ["src", "pages"] + sub + ["index.astro"], cwd) ==
            Join(Paths.Ups(|sub| + 1) + ["layouts", "Layout.astro"], '/')
  {
    var file := cwd + ["src", "pages"] + sub + ["index.astro"];
    var dir := cwd + ["src", "pages"] + sub;
    assert Paths.Dirname(file) == dir;
    RelativePages(cwd, sub);
    var parts := Paths.Ups(|sub| + 1) + ["layouts", "Layout.astro"];
    UpsJoinDotted(parts);
    LayoutImportDotted(file, cwd, Join(parts, '/'));
  }

  // ---------------------------------------------------------------- origin and styles

  const DefaultOrigin: String := "https://iowaallpro2.republicleadhunter.com"
  const ExampleBase: String := "https://example.com"

  /** `/iowaallpro|republicleadhunter/.test(o)`. */
  predicate Preferred(o: String) {
    Contains(o, "iowaallpro") || Contains(o, "republicleadhunter")
  }

  /** `collect(val)`: the origin of an `http` or `https` URL, resolved against the placeholder
      base. */
  function Collected(val: String, env: Env): seq<String> {
    if val == [] then []
    else
      var u := env.resolve(val, ExampleBase);
      if u.Some? && u.value.origin != [] && StartsWith(u.value.protocol, "http") then [u.value.origin]
      else []
  }

  /** `a[href], link[href], script[src], img[src]`. */
  predicate Referencing(e: Element) {
    || (e.tag == "a" && "href" in e.attrs) || (e.tag == "link" && "href" in e.attrs)
    || (e.tag == "script" && "src" in e.attrs) || (e.tag == "img" && "src" in e.attrs)
  }

  /** What one selected element contributes: its `href`, then its `src`. */
  function ElementOrigins(env: Env, e: Element): seq<String> {
    if Referencing(e) then Collected(Attr(e, "href"), env) + Collected(Attr(e, "src"), env) else []
  }

  function OriginsStep(env: Env): Element -> seq<String> {
    e => ElementOrigins(env, e)
  }

  /** The origins in the order they are seen, with repeats. */
  function Origins(doc: Doc, env: Env): seq<String> {
    Seqs.Flatten(Seqs.Map(OriginsStep(env), doc))
  }

  /** `[...origins].find(o => /iowaallpro|republicleadhunter/.test(o))`. */
  function FirstPreferred(os: seq<String>): (r: Option<String>)
    ensures r.Some? ==> r.value in os && Preferred(r.value)
    ensures r.None? ==> forall i :: 0 <= i < |os| ==> !Preferred(os[i])
  {
    if os == [] then None else if Preferred(os[0]) then Some(os[0]) else FirstPreferred(os[1..])
  }

  lemma {:induction false} FirstPreferredConcat(a: seq<String>, b: seq<String>)
    ensures FirstPreferred(a + b) == if FirstPreferred(a).Some? then FirstPreferred(a) else FirstPreferred(b)
    decreases |a|
  {
    if a == [] {
      assert a + b == b;
    } else {
      assert (a + b)[0] == a[0] && (a + b)[1..] == a[1..] + b;
      FirstPreferredConcat(a[1..], b);
    }
  }

  /** Dropping repeats, as the `Set` does, does not change the origin found. */
  lemma {:induction false} FirstPreferredAddAll(acc: seq<String>, items: seq<String>)
    ensures FirstPreferred(Seqs.AddAll(acc, items)) == FirstPreferred(acc + items)
    decreases |items|
  {
    if items == [] {
      assert acc + items == acc;
    } else {
      var x := items[0];
      var acc' := if x in acc then acc else acc + [x];
      assert FirstPreferred(Seqs.AddAll(acc, items)) == FirstPreferred(acc' + items[1..]) by {
        FirstPreferredAddAll(acc', items[1..]);
      }
      if x in acc {
        assert FirstPreferred(acc + items[1..]) == FirstPreferred(acc + items) by {
          FirstPreferredConcat(acc, items);
          FirstPreferredConcat(acc, items[1..]);
          assert items == [x] + items[1..];
          FirstPreferredConcat([x], items[1..]);
        }
      } else {
        assert acc + items == acc' + items[1..] by {
          AppendAssoc(acc, [x], items[1..]);
          assert [x] + items[1..] == items;
        }
      }
    }
  }

  /** The origin a page's own links name, from the new site or the old one, else the default. */
  function DetectedOrigin(doc: Doc, env: Env): (r: String)
    ensures r == DefaultOrigin || (r in Origins(doc, env) && Preferred(r))
  {
    var p := FirstPreferred(Seqs.Dedup(Origins(doc, env)));
    if p.Some? && p.value != [] then p.value else DefaultOrigin
  }

  /** `detectOrigin(html)`: the origins are collected element by element into an
      insertion-ordered set, and the first preferred one is taken. */
  method DetectOrigin(html: String, env: Env) returns (origin: String)
    ensures origin == DetectedOrigin(env.load(html), env)
  {
    var doc := env.load(html);
    var origins: seq<String> := [];
    for i := 0 to |doc|
      invariant origins == Seqs.AddAll([], Origins(doc[..i], env))
    {
      var found := ElementOrigins(env, doc[i]);
      OriginsSnoc(doc, i, env);
      Seqs.AddAllConcat([], Origins(doc[..i], env), found);
      origins := Seqs.AddEach(origins, found);
    }
    assert doc[..|doc|] == doc;
    var p := FindPreferred(origins);
    origin := if p.Some? && p.value != [] then p.value else DefaultOrigin;
  }

  lemma OriginsSnoc(doc: Doc, i: nat, env: Env)
    requires i < |doc|
    ensures Origins(doc[..i + 1], env) == Origins(doc[..i], env) + ElementOrigins(env, doc[i])
  {
    assert doc[..i + 1] == doc[..i] + [doc[i]];
    Seqs.MapAppend(OriginsStep(env), doc[..i], doc[i]);
    Seqs.FlattenAppend(Seqs.Map(OriginsStep(env), doc[..i]), ElementOrigins(env, doc[i]));
  }

  /** `Array.prototype.find` over the set. */
  method FindPreferred(os: seq<String>) returns (r: Option<String>)
    ensures r == FirstPreferred(os)
  {
    var i := 0;
    while i < |os|
      invariant 0 <= i <= |os|
      invariant FirstPreferred(os) == FirstPreferred(os[i..])
    {
      assert os[i..][1..] == os[i + 1..];
      if Preferred(os[i]) {
        return Some(os[i]);
      }
      i := i + 1;
    }
    return None;
  }

  /** What decides the origin is the first preferred origin the page names. */
  lemma DetectedOriginFirst(doc: Doc, env: Env)
    ensures var p := FirstPreferred(Origins(doc, env));
            DetectedOrigin(doc, env) == if p.Some? && p.value != [] then p.value else DefaultOrigin
  {
    FirstPreferredAddAll([], Origins(doc, env));
    assert [] + Origins(doc, env) == Origins(doc, env);
  }

  /** `link[rel="stylesheet"]` with a non-empty `href` that the URL class accepts. */
  function StyleHref(base: String, env: Env, e: Element): seq<String> {
    if e.tag == "link" && Attr(e, "rel") == "stylesheet" && HasValue(e, "href") &&
       env.resolve(Attr(e, "href"), base).Some?
    then [env.resolve(Attr(e, "href"), base).value.href]
    else []
  }

  function StyleHrefStep(base: String, env: Env): Element -> seq<String> {
    e => StyleHref(base, env, e)
  }

  function HeadStyles(doc: Doc, base: String, env: Env): seq<String> {
    Seqs.Flatten(Seqs.Map(StyleHrefStep(base, env), doc))
  }

  /** `extractHeadStyles(html, baseUrl)`: the absolute URLs of the stylesheets, in document
      order. */
  method ExtractHeadStyles(html: String, base: String, env: Env) returns (hrefs: seq<String>)
    ensures hrefs == HeadStyles(env.load(html), base, env)
  {
    var doc := env.load(html);
    hrefs := [];
    for i := 0 to |doc|
      invariant hrefs == HeadStyles(doc[..i], base, env)
    {
      assert doc[..i + 1] == doc[..i] + [doc[i]];
      Seqs.MapAppend(StyleHrefStep(base, env), doc[..i], doc[i]);
      Seqs.FlattenAppend(Seqs.Map(StyleHrefStep(base, env), doc[..i]), StyleHref(base, env, doc[i]));
      hrefs := hrefs + StyleHref(base, env, doc[i]);
    }
    assert doc[..|doc|] == doc;
  }

  /** The `headStylesLocal` map: a stylesheet of the page's own origin by path and query. */
  function LocalStyle(origin: String, env: Env, u: String): (r: String)
    ensures r == u || (env.parse(u).Some? && env.parse(origin).Some? &&
                       env.parse(u).value.origin == env.parse(origin).value.origin &&
                       r == env.parse(u).value.pathname + env.parse(u).value.search)
    ensures env.parse(u).None? || env.parse(origin).None? ==> r == u
  {
    var uu := env.parse(u);
    var base := env.parse(origin);
    if uu.Some? && base.Some? && uu.value.origin == base.value.origin
    then uu.value.pathname + uu.value.search
    else u
  }

  function LocalStyleStep(origin: String, env: Env): String -> String {
    u => LocalStyle(origin, env, u)
  }

  // ---------------------------------------------------------------- the page

  const HeadStylesLine: String :=
    "    {headStyles.map((href) => " + "(<link rel=\"stylesheet\" " + "href={href} />))}"

  /** The page `wrapInLayoutDynamic(fromFile, title, contentHtml, headStyles)` returns. */
  function WrapInLayoutDynamic(fromFile: Path, cwd: Path, title: String, contentHtml: String,
                               headStyles: seq<String>, env: Env): String
  {
    Unlines([
      "---",
      "import Layout from '" + LayoutImport(fromFile, cwd) + "';",
      "const contentHtml = " + env.stringify(contentHtml) + ";",
      "const headStyles = " + env.stringifyList(headStyles) + ";",
      "---",
      "",
      "<Layout title={\"" + title + "\">",
      "  <Fragment slot=\"head\">",
      HeadStylesLine,
      "  </Fragment>",
      "  <main set:html={contentHtml} />",
      "</Layout>"])
  }

  /** The fixed lines of the page hold no line feed. */
  lemma FrontTextOneLine()
    ensures '\n' !in "import Layout from '" && '\n' !in "const contentHtml = " && '\n' !in "const headStyles = "
  {
  }

  lemma SlotTextOneLine()
    ensures '\n' !in "<Layout title={\"" && '\n' !in "  <Fragment slot=\"head\">"
  {
  }

  lemma HeadStylesOneLine()
    ensures '\n' !in HeadStylesLine
  {
    assert '\n' !in "    {headStyles.map((href) => ";
    assert '\n' !in "(<link rel=\"stylesheet\" ";
    assert '\n' !in "href={href} />))}";
  }

  lemma MainTextOneLine()
    ensures '\n' !in "  </Fragment>" && '\n' !in "  <main set:html={contentHtml} />" && '\n' !in "</Layout>"
  {
  }

  /** Read line by line, the page is the frontmatter that imports the layout by its relative
      path and binds the serialised content and style list, then the layout with the title,
      the style links in its head slot and the content as the HTML of `main`; provided that
      neither the title, the import path nor the serialisations hold a line feed. */
  lemma WrapInLayoutDynamicLines(fromFile: Path, cwd: Path, title: String, contentHtml: String,
                                 headStyles: seq<String>, env: Env)
    requires '\n' !in title && '\n' !in LayoutImport(fromFile, cwd)
    requires '\n' !in env.stringify(contentHtml) && '\n' !in env.stringifyList(headStyles)
    ensures Split(WrapInLayoutDynamic(fromFile, cwd, title, contentHtml, headStyles, env), '\n') ==
            ["---",
             "import Layout from '" + LayoutImport(fromFile, cwd) + "';",
             "const contentHtml = " + env.stringify(contentHtml) + ";",
             "const headStyles = " + env.stringifyList(headStyles) + ";",
             "---",
             "",
             "<Layout title={\"" + title + "\">",
             "  <Fragment slot=\"head\">",
             HeadStylesLine,
             "  </Fragment>",
             "  <main set:html={contentHtml} />",
             "</Layout>",
             ""]
  {
    FrontTextOneLine();
    SlotTextOneLine();
    HeadStylesOneLine();
    MainTextOneLine();
    var ls := ["---",
               "import Layout from '" + LayoutImport(fromFile, cwd) + "';",
               "const contentHtml = " + env.stringify(contentHtml) + ";",
               "const headStyles = " + env.stringifyList(headStyles) + ";",
               "---",
               "",
               "<Layout title={\"" + title + "\">",
               "  <Fragment slot=\"head\">",
               HeadStylesLine,
               "  </Fragment>",
               "  <main set:html={contentHtml} />",
               "</Layout>"];
    forall i | 0 <= i < |ls| ensures '\n' !in ls[i] {
    }
    SplitUnlines(ls, []);
    assert Unlines(ls) + [] == Unlines(ls);
  }

  /** What makes the pages: the directories (absolute), the working directory, the overwrite
      switch, the file reader and the libraries. */
  datatype Run = Run(inDir: Path, outDir: Path, cwd: Path, overwrite: bool,
                     read: Path -> String, env: Env)

  /** The title `generatePages` gives a page: its `title` text, or `Page` without one. */
  function PageTitle(html: String, env: Env): String {
    var t := env.titleText(html);
    SanitizeTitle(Some(if t != [] then t else "Page"))
  }

  /** The destination of a file and the page written for it. */
  function PageFor(run: Run, file: Path): (r: (Path, String))
    ensures r.0 == ToAstroPath(run.inDir, file, run.outDir)
  {
    var env := run.env;
    var html := run.read(file);
    var origin := DetectedOrigin(env.load(html), env);
    var styles := Seqs.Map(LocalStyleStep(origin, env), HeadStyles(env.load(html), origin, env));
    var main := AnchorsRewritten(AssetsRewritten(ExtractMainHtml(env.mainHtml(html), env.bodyHtml(html)),
                                                 origin, env), origin, env);
    var dest := ToAstroPath(run.inDir, file, run.outDir);
    (dest, WrapInLayoutDynamic(dest, run.cwd, PageTitle(html, env), main, styles, env))
  }

  type Files = map<Path, String>

  /** One file of the loop: skipped when overwriting is off and the destination exists. */
  function Step(fs: Files, overwrite: bool, out: (Path, String)): Files {
    if !overwrite && out.0 in fs then fs else fs[out.0 := out.1]
  }

  /** The files after the loop has handled the pages `outs`, in order. */
  function Written(fs0: Files, overwrite: bool, outs: seq<(Path, String)>): Files
    decreases |outs|
  {
    if outs == [] then fs0
    else Step(Written(fs0, overwrite, outs[..|outs| - 1]), overwrite, outs[|outs| - 1])
  }

  /** The body of the loop of `generatePages` up to the write: the destination of one
      listed file and the page for it. */
  method ConvertFile(run: Run, file: Path) returns (dest: Path, astro: String)
    ensures (dest, astro) == PageFor(run, file)
  {
    var env := run.env;
    var html := run.read(file);
    var title := PageTitle(html, env);
    var origin := DetectOrigin(html, env);
    var headStylesAbs := ExtractHeadStyles(html, origin, env);
    var headStylesLocal := Seqs.Map(LocalStyleStep(origin, env), headStylesAbs);
    var mainRaw := ExtractMainHtml(env.mainHtml(html), env.bodyHtml(html));
    var mainWithLocalAssets := RewriteAssetsToLocal(mainRaw, origin, env);
    var mainHtml := RewriteInternalAnchors(mainWithLocalAssets, origin, env);
    dest := ToAstroPath(run.inDir, file, run.outDir);
    astro := WrapInLayoutDynamic(dest, run.cwd, title, mainHtml, headStylesLocal, env);
  }

  lemma StepOf(fs: Files, overwrite: bool, out: (Path, String), dest: Path, astro: String)
    requires out == (dest, astro)
    ensures Step(fs, overwrite, out) == if !overwrite && dest in fs then fs else fs[dest := astro]
  {
  }

  /** One turn of the loop of `generatePages`: the page is written unless its destination
      exists and overwriting is off. */
  method GenerateFile(run: Run, file: Path, fs: Files) returns (fs': Files)
    ensures fs' == Step(fs, run.overwrite, PageFor(run, file))
  {
    var dest, astro := ConvertFile(run, file);
    StepOf(fs, run.overwrite, PageFor(run, file), dest, astro);
    if !run.overwrite && dest in fs {
      // Skip existing
      fs' := fs;
    } else {
      fs' := fs[dest := astro];
    }
  }

  /** The pages of the listed files, in order. */
  function Outputs(run: Run, files: seq<Path>): seq<(Path, String)>
    decreases |files|
  {
    if files == [] then [] else Outputs(run, files[..|files| - 1]) + [PageFor(run, files[|files| - 1])]
  }

  lemma WrittenSnoc(fs0: Files, overwrite: bool, outs: seq<(Path, String)>, o: (Path, String))
    ensures Written(fs0, overwrite, outs + [o]) == Step(Written(fs0, overwrite, outs), overwrite, o)
  {
    assert (outs + [o])[..|outs|] == outs;
  }

  lemma OutputsSnoc(run: Run, files: seq<Path>, i: nat)
    requires i < |files|
    ensures Outputs(run, files[..i + 1]) == Outputs(run, files[..i]) + [PageFor(run, files[i])]
  {
    assert files[..i + 1][..i] == files[..i];
  }

  lemma GeneratedSnoc(run: Run, files: seq<Path>, i: nat, fs0: Files)
    requires i < |files|
    ensures Written(fs0, run.overwrite, Outputs(run, files[..i + 1])) ==
            Step(Written(fs0, run.overwrite, Outputs(run, files[..i])), run.overwrite, PageFor(run, files[i]))
  {
    OutputsSnoc(run, files, i);
    WrittenSnoc(fs0, run.overwrite, Outputs(run, files[..i]), PageFor(run, files[i]));
  }

  /** `generatePages(inDir, outDir, overwrite)` over the listed files; `fs0` holds the files
      that exist beforehand. Every file is counted, written or skipped. */
  method GeneratePages(run: Run, files: seq<Path>, fs0: Files) returns (fs: Files, count: nat)
    ensures count == |files|
    ensures fs == Written(fs0, run.overwrite, Outputs(run, files))
  {
    fs := fs0;
    count := 0;
    for i := 0 to |files|
      invariant count == i
      invariant fs == Written(fs0, run.overwrite, Outputs(run, files[..i]))
    {
      GeneratedSnoc(run, files, i, fs0);
      fs := GenerateFile(run, files[i], fs);
      count := count + 1;
    }
    assert files[..|files|] == files;
  }

  /** Some page of the list goes to `p`. */
  ghost predicate IsDest(outs: seq<(Path, String)>, p: Path) {
    exists j :: 0 <= j < |outs| && outs[j].0 == p
  }

  /** After the loop the files are those from before and one per destination. */
  lemma {:induction false} WrittenKeys(fs0: Files, overwrite: bool, outs: seq<(Path, String)>, p: Path)
    ensures p in Written(fs0, overwrite, outs) <==> p in fs0 || IsDest(outs, p)
    decreases |outs|
  {
    if outs != [] {
      var init := outs[..|outs| - 1];
      WrittenKeys(fs0, overwrite, init, p);
      if IsDest(outs, p) {
        var j :| 0 <= j < |outs| && outs[j].0 == p;
        if j < |outs| - 1 { assert init[j] == outs[j]; }
      }
      if IsDest(init, p) {
        var j :| 0 <= j < |init| && init[j].0 == p;
        assert outs[j] == init[j];
      }
    }
  }

  /** With `--no-overwrite` no file that existed changes. */
  lemma {:induction false} NoOverwriteKeeps(fs0: Files, outs: seq<(Path, String)>, p: Path)
    requires p in fs0
    ensures p in Written(fs0, false, outs) && Written(fs0, false, outs)[p] == fs0[p]
    decreases |outs|
  {
    if outs != [] {
      NoOverwriteKeeps(fs0, outs[..|outs| - 1], p);
    }
  }

  /** When overwriting, a destination holds the page of the last file that goes to it. */
  lemma {:induction false} OverwriteLastWins(fs0: Files, outs: seq<(Path, String)>, j: nat)
    requires j < |outs|
    requires forall k :: j < k < |outs| ==> outs[k].0 != outs[j].0
    ensures outs[j].0 in Written(fs0, true, outs)
    ensures Written(fs0, true, outs)[outs[j].0] == outs[j].1
    decreases |outs|
  {
    if j < |outs| - 1 {
      var init := outs[..|outs| - 1];
      assert init[j] == outs[j];
      forall k | j < k < |init| ensures init[k].0 != init[j].0 {
        assert init[k] == outs[k];
      }
      OverwriteLastWins(fs0, init, j);
    }
  }

  /** Without overwriting, a new destination holds the page of the first file that goes to
      it. */
  lemma {:induction false} NoOverwriteFirstWins(fs0: Files, outs: seq<(Path, String)>, j: nat)
    requires j < |outs| && outs[j].0 !in fs0
    requires forall k :: 0 <= k < j ==> outs[k].0 != outs[j].0
    ensures outs[j].0 in Written(fs0, false, outs)
    ensures Written(fs0, false, outs)[outs[j].0] == outs[j].1
    decreases |outs|
  {
    var init := outs[..|outs| - 1];
    var p := outs[j].0;
    WrittenKeys(fs0, false, init, p);
    if j < |outs| - 1 {
      assert init[j] == outs[j];
      forall k | 0 <= k < j ensures init[k].0 != p {
        assert init[k] == outs[k];
      }
      NoOverwriteFirstWins(fs0, init, j);
    } else if IsDest(init, p) {
      assert false;
    }
  }
}
